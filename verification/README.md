# Moba game server: a Dafny model of its protocol logic

The server of this repository is a C++ network core with Lua services on one event loop. This project
models the parts whose correctness is not visible from any single function and proves properties of
them. `dafny verify dfyconfig.toml` checks everything.

| Component | Files | What is proved |
|---|---|---|
| Codecs | `Seqs`, `Bytes`, `TcpProtocol`, `WsProtocol`, `ProtoManager` | headers and frames are read back, with the exact conditions; the in-place tag patch |
| Reassembly | `Framing`, `UvSession`, `ServiceManager`, `EndToEnd` | the chunk-driven receive machine is the function that splits the whole stream, and messages arrive as sent at the services they are for |
| The shift as written | `AsWritten`, `Bursts` | which reads, runs and bursts the code handles as it stands, exactly, on both protocols; when it reads past its buffer |
| Gateway | `Gateway`, `GatewayKeys`, `GatewayRouting`, `GatewayService` | invariants of the session maps and temporary keys over every run, including the re-entrant close; where commands and answers go, and what logging in and out changes, in every reachable state |
| Allocator | `CacheAlloc` | the free list kept inside the free slots refines a pool of slots; live blocks are disjoint |
| JSON | `Json`, `JsonTexts`, `JsonGrammar`, `JsonRoundTrip`, `JsonMethods` | the decoder accepts exactly the texts of a grammar, and yields the values they denote; decoding undoes encoding |
| Time parsing | `Numerals`, `Strptime`, `StrptimeItems`, `StrptimeRoundTrip`, `StrptimeSound`, `Timestamp` | parsing undoes formatting and accepts nothing that does not fit the format; the bounded digit loop, exactly |
| Chatroom | `Chatroom` | what members are told about each other agrees with the member list over every run |

Every component has a specification made of functions over values. Code that works by changing state
is a class or a method with loops whose postconditions equate the new state with those functions; the
lemmas are about the functions and so about the code.

## How the source is read

* **The shift behind a frame** (`netbus/netbus.cc:131` and `:170`). `memmove` gets the length of the
  frame just consumed where the length of the remaining bytes is needed. Both lengths are modelled by one
  machine with a `Shift` parameter: `Consumed` is the code as written, `Remaining` the evident intention.
  Reassembly is proved without conditions for `Remaining`. For `Consumed`:
  * When some frame has more bytes behind it than it has itself, the last byte read has no influence on
    anything the loop does (`LastByteIgnored`). So a read, whatever was held before and whatever unfinished
    frame it ends in, is handled correctly for every last byte exactly when no frame in it does that
    (`ReadExact`), and a run survives its next read exactly then (`RunExact`).
  * In sizes: frames with payloads of given sizes and `t` bytes of an unfinished frame behind them are handled
    correctly for all payloads exactly when that guard holds at every frame (`BurstExact`), on TCP and on
    WebSocket sessions. Bursts that end in a complete empty frame leave no byte open there: any number of
    empty frames is handled correctly, guarded or not (`EmptyFramesHandled`).
  * Failures: three equally long commands A, B, C in one read are dispatched as A, B, B (`EqualFramesExact`;
    `ThirdMessageLost` for masked frames).
  * `memmove` reads past the end of the 4096-byte buffer exactly when bytes remain behind a frame and twice
    the frame does not fit (`DropFrame`). The flag `overread` follows this through whole runs; what is read
    there is arbitrary (`outside`) and never among the bytes held. `BurstExact` gives the sizes for which a
    burst is both dispatched correctly and handled inside the buffer; frames with payloads of 2100 and 100
    bytes are dispatched correctly although the code reads past the end (`RightButPastTheEnd`).
* **64-bit WebSocket lengths** (`netbus/ws_protocol.cc:135`, `:177`) are shifted as `int` by 32 or more;
  the mathematical shift is modelled. A length of 2^31 or more becomes negative and passes the completeness
  check; a full buffer that begins no readable frame is copied into a buffer of no bytes
  (`netbus/netbus.cc:73-81`). There the flag `broken` is set and nothing more is claimed; `Serve` says for
  which runs that happens.
* **A server frame of 65535 bytes** (`netbus/ws_protocol.cc:158-176`) reserves a four-byte header and writes
  a ten-byte one. The model does the same, and a conforming client recovers the data exactly for the other
  lengths (`ServerFrameReadBack`).
* **User ids** are Lua numbers as map keys but a 32-bit field in the session (`lua_wrapper/session_export_to_lua.cc`,
  `lua_set_uid`). `UidFieldExact` says for which ids an accepted login keeps users leading to their
  sessions; the run theorems assume ids from 0 to 2^32 - 1. The temporary keys are followed while the
  counter is at most 2^32.
* **A login as a second user** (`apps/lua/scripts/gateway/gateway_service.lua:97`) leaves the entry of the first
  one behind. The user map stays exact over a run precisely when no step does this (`StaysExactIff`);
  `SwitchMisroutes` is a run that does it, behind which a reply for one user reaches the session of another.
* **Bodies the gateway cannot use.** A login reply that is no JSON text fails before the pending key is
  removed; one without the fields that are read, after that. A login to the logic server whose body is no
  table, as every body in JSON mode, is not forwarded (`apps/lua/scripts/gateway/gateway_service.lua:152-154`).
* **JSON texts.** The grammar is that of RFC 8259 with two liberties of the code: a comma may stand behind the
  last entry of an array or object, and numbers are whatever `tonumber` accepts (a parameter, but for plain
  integers). A high surrogate followed by an escape that is no low one is combined with it all the same
  (`JsonTexts.Pair`).
* **Times that are not read back.** `%C` is not rebased, so `%C%y` is read 1900 years late (`CenturyLate`); a
  number padded with a blank, as `%e` prints the first nine days, is rejected (`BlankPadded`).
* **Service types** are not compared with the size of the service table (`netbus/service_manager.cc:43-45`):
  the lookup of a type of 512 or more leaves it, which `OnRecvRawCmd` reports.
* **Encoding lone surrogates** (`apps/lua/scripts/json.lua:187-201`): `codepoint_to_utf8` encodes them, and no
  strict UTF-8 decoder accepts the result (`Utf8ReadBack`).
* Protobuf bodies are a pair of functions (`BodyCodec`); theorems about messages ask that the pair restores
  the bodies that are sent. JSON bodies are the C strings the code copies.
* What services do with a command is a function from commands to verdicts (`UvSession.Verdict`): a service may
  patch the tag in the receive buffer and may refuse the command, which closes the session while the
  loop goes on dispatching.

## Model

| member | source | states |
|---|---|---|
| `TcpProtocol.Package` | `netbus/tcp_protocol.cc:22-30` | the buffer holds the two low bytes of the length and then the data |
| `TcpProtocol.ReadBackLength` | `netbus/tcp_protocol.cc:10-30` | the header tells where the data ends exactly when the data has at most 65535 bytes |
| `TcpProtocol.ReadBackData` | `netbus/tcp_protocol.cc:10-30` | from a frame at the front of a stream the data and the rest are recovered |
| `TcpProtocol.FrameOfPayload` | `netbus/tcp_protocol.cc:10-30` | every complete frame is the frame of its own payload |
| `WsProtocol.HeaderStable` | `netbus/ws_protocol.cc:112-143` | a header once readable does not change when more bytes arrive |
| `WsProtocol.ReadClientHeader` | `netbus/ws_protocol.cc:112-143` | for every client frame of RFC 6455 section 5.2 the reader finds header size, payload size and mask |
| `WsProtocol.HeaderSound` | `netbus/ws_protocol.cc:112-143` | nothing but a text or binary opcode, a length field and a mask is taken for a header |
| `WsProtocol.MaskTwice` | `netbus/ws_protocol.cc:145-153` | unmasking undoes the client's masking of RFC 6455 section 5.3 |
| `WsProtocol.ParseWsRecvData` | `netbus/ws_protocol.cc:145-153` | the payload is unmasked in place and no byte outside it changes |
| `WsProtocol.PackageWsSendData` | `netbus/ws_protocol.cc:155-192` | the buffer holds as much of the written header as was reserved, and then the data |
| `WsProtocol.ServerFrameReadBack` | `netbus/ws_protocol.cc:155-192` | a strict client recovers data and following frames, in the shortest length form, exactly when the data is not 65535 bytes long |
| `ProtoManager.EncodeMsgToRaw` | `netbus/proto_manager.cc:140-176` | the buffer is header and body, or there is none when the body cannot be serialized |
| `ProtoManager.HeaderRoundTrip` | `netbus/proto_manager.cc:70-83` | the raw header reads back both types cut to sixteen bits and the tag |
| `ProtoManager.MessageRoundTrip` | `netbus/proto_manager.cc:88-176` | decoding undoes encoding, and exactly the messages with sixteen-bit types and a non-empty body come back unchanged |
| `ProtoManager.JsonBodySurvives` | `netbus/proto_manager.cc:108-115` | the JSON bodies that arrive as sent are the texts that are not empty and hold no NUL byte; an empty C string arrives as no body |
| `ProtoManager.DecodeExact` | `netbus/proto_manager.cc:88-138` | exactly the bytes with a whole header and a body that decodes, if there is one, are decoded; encoding the result gives the bytes back |
| `ProtoManager.RawCmdMsg.constructor` | `netbus/proto_manager.cc:70-83` | the decoded fields agree with the bytes they were read from |
| `ProtoManager.RawCmdMsg.ReadHeader` | `lua_wrapper/proto_manager_export_to_lua.cc:106-132` | the three values are those of the bytes the command lies in |
| `ProtoManager.RawCmdMsg.SetUtag` | `lua_wrapper/proto_manager_export_to_lua.cc:136-170` | field and bytes get the new tag; every other byte of the buffer, before and behind the command, is untouched |
| `ProtoManager.PatchedHeader` | `lua_wrapper/proto_manager_export_to_lua.cc:136-170` | a patched command reads back with the new tag and the old types and body |
| `ProtoManager.PatchThenDecode` | `lua_wrapper/proto_manager_export_to_lua.cc:136-170` | decoding a patched command gives the message with only its tag changed |
| `ProtoManager.PatchUndone` | `lua_wrapper/proto_manager_export_to_lua.cc:136-170` | patching the old tag back restores every byte |
| `Framing.SplitAppend` | `netbus/netbus.cc:107-181` | cutting a stream in two changes nothing about its frames or its rest |
| `Framing.FeedIsSplit` | `netbus/netbus.cc:107-211` | over every cutting into reads, the intended machine dispatches exactly the frames of the stream, in order, and holds exactly the unfinished suffix |
| `Framing.TcpStreamSplit` | `netbus/netbus.cc:107-142` | the frames of a list of payloads are split into that list |
| `Framing.SplitTcpStream` | `netbus/netbus.cc:107-142` | framing the payloads found and appending the rest gives the stream back |
| `Framing.WsFrontFrame` | `netbus/netbus.cc:144-181` | whatever a WebSocket session takes for a frame is a masked text or binary frame with the payload dispatched |
| `Framing.WsStreamSplit` | `netbus/netbus.cc:144-181` | masked client frames are split into the client's original payloads |
| `AsWritten.ConsumedShiftExact` | `netbus/netbus.cc:130-132` | moving the consumed length is right for all bytes exactly when the remainder is no longer than the frame, and stays inside the buffer besides exactly when nothing remains or twice the frame fits |
| `AsWritten.LastByteIgnored` | `netbus/netbus.cc:107-181` | where a frame has more bytes behind it than its own, the last byte read changes nothing the loop as written dispatches or keeps |
| `AsWritten.ReadExact` | `netbus/netbus.cc:107-211` | as written, a read is handled correctly for every last byte exactly when it is guarded, and inside the buffer besides exactly when its frames are short |
| `AsWritten.RunExact` | `netbus/netbus.cc:107-211` | as written, a run that was guarded so far does what the intended one does for every last byte of its next read exactly when that read is guarded |
| `AsWritten.GuardedFeed` | `netbus/netbus.cc:107-211` | when every read keeps the guard, the code as written dispatches and holds what the intended machine does, and reads inside the buffer exactly when every frame with bytes behind it is short |
| `Bursts.EqualFramesDrain` | `netbus/netbus.cc:107-181` | as written, equally long frames in one read become the first and then the second repeated |
| `Bursts.EqualFramesExact` | `netbus/netbus.cc:107-181` | such a burst is handled correctly exactly when all payloads from the second on are equal |
| `Bursts.ThirdMessageLost` | `netbus/netbus.cc:144-181` | three masked frames of one size: the second message is dispatched in place of the third |
| `Bursts.BurstExact` | `netbus/netbus.cc:107-181` | frames with payloads of given sizes and a given number of bytes of an unfinished one are handled correctly for all payloads exactly when at each frame the rest is no longer than the frame; inside the buffer besides exactly when each frame with bytes behind it takes at most half of it |
| `Bursts.RightButPastTheEnd` | `netbus/netbus.cc:130-132` | neither condition follows from the other |
| `Bursts.EmptyFramesHandled` | `netbus/netbus.cc:107-181` | frames without payload are handled correctly in any number |
| `UvSession.UVSession.constructor` | `netbus/session_uv.cc:72-83` | a new session is idle, holds nothing and is not shut |
| `UvSession.UVSession.Close` | `netbus/session_uv.cc:107-124` | the services are told exactly once, however often it is called |
| `UvSession.UVSession.OnAllocBuffer` | `netbus/netbus.cc:65-94` | the window is nonempty, inside its buffer and right behind the held bytes; a full buffer moves into one of exactly the announced frame size, or the copy overflows when it announces none |
| `UvSession.UVSession.OnRecvClientCommand` | `netbus/netbus.cc:96-105` | a payload with a whole header is handed on once, and closes the session exactly when the service refuses it; the service's patch is all that changes in the buffer; a shorter payload changes nothing |
| `UvSession.UVSession.DropFrame` | `netbus/netbus.cc:130-140` | the bytes behind the frame come forward as far as the moved length reaches; bytes outside the buffer are read exactly when bytes remain and twice the frame does not fit; an emptied big-frame buffer is released |
| `UvSession.UVSession.MoveToFront` | `netbus/netbus.cc:131` | the copy, and whether it reads past the end of the buffer |
| `UvSession.UVSession.HandleFrame` | `netbus/netbus.cc:128-140` | one frame is handed on and dropped; when a big-frame buffer is released no byte is left over |
| `UvSession.UVSession.OnReceiveTcpData` | `netbus/netbus.cc:107-142` | commands handed on, bytes held, shutdown state and whether the code read outside its buffer are those of draining the held bytes |
| `UvSession.UVSession.OnReceiveWsData` | `netbus/netbus.cc:144-181` | the same for WebSocket frames, unmasked in place only when complete; a close frame closes, and a length of 2^31 or more breaks the session |
| `UvSession.UVSession.AfterRead` | `netbus/netbus.cc:183-211` | a failed read closes and changes nothing else; a good one drains the bytes held and read |
| `UvSession.UVSession.ReadEvent` | `netbus/netbus.cc:65-211` | one read through the window has the effect of draining held bytes and chunk; without a window the behaviour is undefined |
| `UvSession.UVSession.Serve` | `netbus/netbus.cc:65-211` | a run of reads hands on and holds what the run function says and keeps the session invariant; the session is closed exactly when a command handed on was refused or at a close frame, and told once; the behaviour is undefined exactly when a read finds no window or a header announces 2^31 bytes or more |
| `EndToEnd.TcpWindowOpen` | `netbus/netbus.cc:65-94` | between two events a TCP session always has a nonempty window |
| `EndToEnd.TcpSound` | `netbus/netbus.cc:65-142` | whichever length it moves and whatever it is sent, a TCP session never lacks a window |
| `EndToEnd.TcpReassembly` | `netbus/netbus.cc:65-142` | payloads up to 65535 bytes, cut anywhere within the windows, are dispatched once each in order; exactly the unfinished frame stays held |
| `EndToEnd.WsReassembly` | `netbus/netbus.cc:65-181` | masked text and binary frames, cut anywhere within the windows, are dispatched as the client's payloads in order, nothing stays held, and the behaviour is never undefined |
| `EndToEnd.MessagesArrive` | `netbus/proto_manager.cc:70-176` | a list of messages, encoded, framed, cut anywhere and reassembled, decodes to the same list, types cut to sixteen bits and empty bodies arriving as none |
| `EndToEnd.ReceiveMessages` | `netbus/netbus.cc:65-211` | the session object fed those reads hands its services those messages, is closed exactly when one of them is refused, and reads outside its buffer exactly when, as written, a frame with bytes behind it is not short |
| `EndToEnd.WsClosed` | `netbus/netbus.cc:144-160` | the messages in front of a close frame are dispatched, and the session closes |
| `EndToEnd.Outbox.SendMsg` | `netbus/session_uv.cc:148-170` | a message is written as the frame of its encoding, or not at all |
| `EndToEnd.Outbox.SendRawCmd` | `netbus/session_uv.cc:172-175` | a raw command is written as one frame |
| `EndToEnd.Outbox.SendMessages` | `netbus/session_uv.cc:126-175` | messages sent one after the other are written as the stream that arrives |
| `ServiceManager.FirstStays` | `netbus/service_manager.cc:18-31` | exactly the types below 512 that someone registers have a service, the first one |
| `ServiceManager.MessageDispatched` | `netbus/service_manager.cc:42-60` | an encoded message reaches the service of its type as it arrives; without a service it is refused |
| `ServiceManager.OnlyDecoded` | `netbus/service_manager.cc:48-59` | bytes that do not decode are refused without asking the service; for all others its answer counts |
| `ServiceManager.Registry.RegisterService` | `netbus/service_manager.cc:18-31` | a free slot in range is taken, and nothing else changes |
| `ServiceManager.Registry.OnRecvRawCmd` | `netbus/service_manager.cc:42-60` | the verdict of the service of the command's type; the lookup leaves the table exactly for types of 512 and more |
| `EndToEnd.ForwardedMessage` | `netbus/session_uv.cc:148-175` | a command patched and framed again is received by the server behind as the client's message with only its tag changed |
| `Gateway.BroadcastClient` | `netbus/service_manager.cc:62-69` | telling all services takes the session out of the maps once and sends each connected server its command |
| `Gateway.CloseTellsOnce` | `netbus/session_uv.cc:107-124` | one close sends one lost-connection command to each connected server, none without a user; a second close changes nothing; no pending key and no entry of its user lead to the session |
| `Gateway.CloseFrame` | `apps/lua/scripts/gateway/gateway_service.lua:191-235` | closing leaves every other session as it was and only removes entries of the closed one |
| `Gateway.OlderClosedKeeps` | `apps/lua/scripts/gateway/gateway_service.lua:84-95` | the re-entrant close keeps all invariants and leaves no other open session with the user |
| `Gateway.StepKeeps` | `apps/lua/scripts/gateway/gateway_service.lua:63-235` | every event keeps both map invariants, and keeps the user map exact exactly when it does not log a session in as a second user |
| `Gateway.RunKeeps` | `apps/lua/scripts/gateway/gateway_service.lua:63-235` | the invariants hold over every run, exactness over every run without such a switch |
| `Gateway.StaysExactIff` | `apps/lua/scripts/gateway/gateway_service.lua:63-235` | the user map is exact at every point of a run exactly when no login as a second user is completed in it |
| `Gateway.SwitchMisroutes` | `apps/lua/scripts/gateway/gateway_service.lua:84-116` | a run from the start in which a session logs in as 7 and then as 8, and a reply for 7 is sent to it |
| `Gateway.OneSessionPerUser` | `apps/lua/scripts/gateway/gateway_service.lua:63-118` | in every reachable state an open session with a user is the one the user map holds, so no two share a user |
| `Gateway.RepliesReachTheirUser` | `apps/lua/scripts/gateway/gateway_service.lua:106-117` | a non-login reply tagged with a user is sent to exactly the open session logged in as that user, or nowhere |
| `Gateway.UidFieldExact` | `apps/lua/scripts/gateway/gateway_service.lua:97-98` | an accepted login keeps users leading to their sessions exactly when the 32-bit field keeps the id, becomes 0, or becomes an id that already led to the session |
| `GatewayKeys.StepKeepsKeyHistory` | `apps/lua/scripts/gateway/gateway_service.lua:63-235` | every event keeps the key history in order and paid for |
| `GatewayKeys.KeyServesOneSession` | `apps/lua/scripts/gateway/gateway_service.lua:137-144` | in a whole run every login request and reply under one temporary key concerns one session |
| `GatewayKeys.RepliesArePaidFor` | `apps/lua/scripts/gateway/gateway_service.lua:67-81` | login replies under a key are delivered at most once per forwarded request, and a pending key names the open session that has it |
| `GatewayKeys.LateReplyDropped` | `apps/lua/scripts/gateway/gateway_service.lua:72-76` | a login reply for a session that has been closed changes nothing and is sent to nobody |
| `GatewayRouting.CommandRouted` | `apps/lua/scripts/gateway/gateway_service.lua:128-173` | in every reachable state a command that is no login request is sent once, to the server of its type, tagged with the client's user; without user, server or usable body nothing happens |
| `GatewayRouting.LoginRequestRouted` | `apps/lua/scripts/gateway/gateway_service.lua:137-144` | a login request is sent to the server of its type under a key that is pending for the client, kept for its next request, and nobody else's |
| `GatewayRouting.AnswerComesBack` | `apps/lua/scripts/gateway/gateway_service.lua:106-173` | a reply under the tag a command was sent with reaches the client that sent it, whatever happened in between, while it is logged in as the same user |
| `GatewayRouting.LoginNotAccepted` | `apps/lua/scripts/gateway/gateway_service.lua:67-82` | a refusal is delivered to the session with the key; unknown keys and undecodable bodies change nothing; an unreadable body uses up the request |
| `GatewayRouting.LoginTakesEffect` | `apps/lua/scripts/gateway/gateway_service.lua:84-105` | an accepted login makes the session its user's, tells and shuts the one it replaces, is answered last, and changes nothing else |
| `GatewayRouting.ReplyChangesNothing` | `apps/lua/scripts/gateway/gateway_service.lua:106-110` | a reply that is no logout is only sent, and dropped when no user has its tag |
| `GatewayRouting.LogoutEnds` | `apps/lua/scripts/gateway/gateway_service.lua:106-116` | after a logout the user leads nowhere and its session has no user; all else is as before; the session's commands and replies for the user go nowhere |
| `GatewayRouting.CloseForgets` | `apps/lua/scripts/gateway/gateway_service.lua:191-235` | closing a client removes exactly the entries that lead to it under its key and its user |
| `GatewayRouting.Newcomers` | `apps/lua/scripts/gateway/gateway_service.lua:13-26` | a new client has no user and no key, and a new server takes over its type |
| `GatewayRouting.ServerGone` | `apps/lua/scripts/gateway/gateway_service.lua:191-203` | after a server is lost commands for it go nowhere, and nothing else changes |
| `GatewayService.Service.OnSessionDisconnect` | `apps/lua/scripts/gateway/gateway_service.lua:191-235` | the maps, fields and messages after the handler |
| `GatewayService.Service.TellServices` | `netbus/service_manager.cc:62-69` | the loop has the effect of telling every registered service in turn |
| `GatewayService.Service.CloseSession` | `netbus/session_uv.cc:107-124` | the effect of the guarded close, services first and the shutdown mark last |
| `GatewayService.Service.ToClient` | `apps/lua/scripts/gateway/gateway_service.lua:63-118` | the maps, fields and messages after a server's command, with the close in mid-step |
| `GatewayService.Service.ToServer` | `apps/lua/scripts/gateway/gateway_service.lua:128-173` | the maps, fields and messages after a client's command |
| `GatewayService.Service.Handle` | `apps/lua/scripts/gateway/gateway_service.lua:183-235` | one event takes the running service one step and keeps the invariants |
| `GatewayService.Service.HandleAll` | `apps/lua/scripts/gateway/gateway_service.lua:183-235` | a run of events leaves the service in the state of the run, invariants included |
| `CacheAlloc.CacheAllocator.constructor` | `utils/cache_alloc.c:18-39` | all slots are free and chained through their own first bytes; too small slots are enlarged to a link |
| `CacheAlloc.CacheAllocator.Alloc` | `utils/cache_alloc.c:49-62` | the first free slot or a malloc block is returned and the chain stays exact |
| `CacheAlloc.CacheAllocator.Free` | `utils/cache_alloc.c:64-79` | the block goes back to the list or to malloc by the address test, and no outstanding slot's bytes change |
| `CacheAlloc.CacheAllocator.ClientWrite` | `utils/cache_alloc.c:59-61` | a client writing into its own slot disturbs neither the chain nor any other slot |
| `CacheAlloc.RunKeepsInv` | `utils/cache_alloc.c:49-79` | over every run no slot is listed twice or both free and out, and free and outstanding slots add up to the capacity |
| `CacheAlloc.CacheAllocator.PerformAll` | `utils/cache_alloc.c:49-79` | over every run of allocations, frees and clients writing into their slots, list and blocks stay those of the pool, and what a client wrote into a slot it still has stands there |
| `CacheAlloc.AllocatedApart` | `utils/cache_alloc.c:49-62` | a returned block is apart from every outstanding block and big enough |
| `CacheAlloc.LiveApart` | `utils/cache_alloc.c:49-79` | any two outstanding blocks share no address |
| `CacheAlloc.Classified` | `utils/cache_alloc.c:70-78` | the address test tells outstanding slots from malloc blocks |
| `CacheAlloc.AllocLive` | `utils/cache_alloc.c:49-62` | an allocation puts exactly the returned block into clients' hands |
| `CacheAlloc.FreeLive` | `utils/cache_alloc.c:64-79` | freeing takes exactly that block out of them |
| `CacheAlloc.FreeThenAlloc` | `utils/cache_alloc.c:49-79` | giving a slot back and asking again returns it and restores the pool |
| `CacheAlloc.FreeExact` | `utils/cache_alloc.c:64-75` | freeing a slot keeps the pool in order exactly when the slot is out |
| `JsonGrammar.DocRead` | `apps/lua/scripts/json.lua:216-368` | any text of the grammar, with any white space where it is allowed, is parsed at any place to the value it denotes, and the parser stops right behind it |
| `JsonGrammar.DocOf` | `apps/lua/scripts/json.lua:216-368` | whatever is parsed is a text of the grammar |
| `JsonGrammar.DecodeExact` | `apps/lua/scripts/json.lua:371-381` | the decoder accepts exactly the texts of the grammar between two gaps, and yields the values they denote |
| `JsonGrammar.GarbageRejected` | `apps/lua/scripts/json.lua:371-381` | a text followed by anything but white space is rejected, unless it is a number that goes on |
| `JsonGrammar.EmptyTable` | `apps/lua/scripts/json.lua:276-337` | the empty array and the empty object, with any gap inside, are the same empty table |
| `JsonGrammar.SetFieldSets` | `apps/lua/scripts/json.lua:303-337` | setting a field sets it alone, once, and with nil removes it |
| `JsonTexts.StringRead` | `apps/lua/scripts/json.lua:216-252` | raw characters, short escapes, code units in either case and surrogate pairs are read as what RFC 8259 section 7 says they mean |
| `JsonTexts.StringOf` | `apps/lua/scripts/json.lua:216-252` | every string that is read is made of these |
| `JsonTexts.Utf8ReadBack` | `apps/lua/scripts/json.lua:187-201` | the bytes of a code point are its UTF-8 form by RFC 3629 exactly when it is not a surrogate |
| `JsonTexts.PairsOneToOne` | `apps/lua/scripts/json.lua:204-213` | surrogate pairs correspond one to one to 0x10000 to 0x10FFFF |
| `JsonTexts.EscapedPairRead` | `apps/lua/scripts/json.lua:229-235` | an escaped pair is parsed to the UTF-8 form of its code point |
| `JsonRoundTrip.EncodedDoc` | `apps/lua/scripts/json.lua:59-127` | what the encoder writes is a text of the grammar without gaps that denotes the value |
| `JsonRoundTrip.ParseOfEncoded` | `apps/lua/scripts/json.lua:216-368` | parsing at an encoded value followed by a delimiter or the end yields it and stops right behind it |
| `JsonRoundTrip.DecodeUndoesEncode` | `apps/lua/scripts/json.lua:59-381` | decoding an encoded value, with white space around it, gives the value back |
| `JsonRoundTrip.EncodeInjective` | `apps/lua/scripts/json.lua:59-135` | different values have different encodings |
| `JsonRoundTrip.ParseOfString` | `apps/lua/scripts/json.lua:216-252` | any string of characters, escaped and quoted, is parsed back exactly |
| `JsonRoundTrip.ParseOfNumber` | `apps/lua/scripts/json.lua:255-263` | every integer below 10^14 in magnitude is parsed back from its numeral |
| `JsonMethods.FindChar` | `apps/lua/scripts/json.lua:163-170` | the loop finds the first position whose membership in the set is as wanted |
| `JsonMethods.StringLoop` | `apps/lua/scripts/json.lua:216-252` | the loop that copies runs between escapes reads the characters one by one |
| `JsonMethods.ParseAt` | `apps/lua/scripts/json.lua:361-368` | the dispatcher computes the specified parse |
| `JsonMethods.ArrayAt` | `apps/lua/scripts/json.lua:276-300` | the array loop fills its table as specified |
| `JsonMethods.ObjectAt` | `apps/lua/scripts/json.lua:303-337` | the object loop fills its table as specified |
| `JsonMethods.DecodeText` | `apps/lua/scripts/json.lua:371-381` | leading and trailing white space are skipped and trailing garbage is rejected |
| `JsonMethods.EncodeTable` | `apps/lua/scripts/json.lua:59-97` | collecting the parts and joining them with commas gives the specified text |
| `Numerals.ConvNumLoop` | `utils/timestamp.c:381-402` | the digit loop computes the specified conversion |
| `Numerals.AccumulatorBounded` | `utils/timestamp.c:381-402` | no value of the accumulator passes the upper limit by more than 9; the last one is the number read |
| `Numerals.ConvNumExact` | `utils/timestamp.c:381-402` | it succeeds exactly with the number denoted by the digits it takes, when that is within the limits, and stops behind them |
| `Numerals.ConvNumFails` | `utils/timestamp.c:381-402` | it fails exactly when no digit is there or that number is outside the limits |
| `Numerals.ConvNumOfDigits` | `utils/timestamp.c:381-402` | every numeral within the limits, padded or not, is read exactly when it has all its digits or no digit follows |
| `Numerals.ConvNumReads` | `utils/timestamp.c:381-402` | success reads between one and as many digits as the upper limit has, and yields their value, within the limits |
| `Numerals.ConvNumOfPadded` | `utils/timestamp.c:381-402` | a number within the limits, zero-padded, is read back exactly whatever follows it |
| `Timestamp.ConvertField` | `utils/timestamp.c:179-368` | the fields and position after each elementary conversion |
| `Timestamp.MyStrptime` | `utils/timestamp.c:83-379` | the interpreter's loops, modifiers and recursion compute the specified parse, also of the fields written before a failure |
| `StrptimeRoundTrip.NumberRead` | `utils/timestamp.c:240-357` | each numeric conversion restores its field from the printed number, padded or not |
| `StrptimeRoundTrip.NameRead` | `utils/timestamp.c:179-224` | each name, full or abbreviated, restores its field |
| `StrptimeRoundTrip.ParsePrinted` | `utils/timestamp.c:83-379` | inside an input, parsing printed items consumes exactly them and restores every mentioned field, wherever numbers, names and white space end visibly |
| `StrptimeRoundTrip.StrptimeUndoesFormatting` | `utils/timestamp.c:83-379` | formatting a time and parsing the result consumes it all and restores every mentioned field |
| `StrptimeSound.ParseSound` | `utils/timestamp.c:83-379` | whatever is accepted is made of one fitting text for each item of the format, and the fields are what these say |
| `StrptimeSound.IllegalFails` | `utils/timestamp.c:115-368` | a conversion that does not exist, or does not allow its modifier, is never read |
| `StrptimeSound.CenturyLate` | `utils/timestamp.c:226-238` | `%C%y` is read back 1900 years late, for every year |
| `Chatroom.FoldBroadcast` | `apps/lua/scripts/chatroom/chatroom_server.lua:3-9` | a broadcast reaches each member but one exactly once, and nobody else |
| `Chatroom.StepKeeps` | `apps/lua/scripts/chatroom/chatroom_server.lua:11-182` | every event keeps the agreement between the member list and what members were told |
| `Chatroom.MembersSeeWhoIsBehindThem` | `apps/lua/scripts/chatroom/chatroom_server.lua:11-182` | over every run the list has no duplicates, a member was told of exactly those behind it, in order, and joins and leaves alternate |
| `Chatroom.MembersAfter` | `apps/lua/scripts/chatroom/chatroom_server.lua:11-182` | who is a member after each event |
| `Chatroom.RequestsAnswered` | `apps/lua/scripts/chatroom/chatroom_server.lua:11-137` | every request is answered once, to its sender alone, with whether it could be met |
| `Chatroom.MembersTold` | `apps/lua/scripts/chatroom/chatroom_server.lua:3-182` | every other member learns once of who joins or leaves, and of nothing else |
| `Chatroom.TextReachesOthers` | `apps/lua/scripts/chatroom/chatroom_server.lua:98-137` | a member's text reaches every other member once and nobody else |
| `Chatroom.Room.BroadcastExcept` | `apps/lua/scripts/chatroom/chatroom_server.lua:3-9` | the loop sends the specified messages in order |
| `Chatroom.Room.OnRecvLoginCmd` | `apps/lua/scripts/chatroom/chatroom_server.lua:11-52` | the member list and messages after a login |
| `Chatroom.Room.OnRecvExitCmd` | `apps/lua/scripts/chatroom/chatroom_server.lua:54-96` | the member list and messages after an exit |
| `Chatroom.Room.OnRecvSendMsgCmd` | `apps/lua/scripts/chatroom/chatroom_server.lua:98-137` | the messages after a text |
| `Chatroom.Room.SessionDisconnect` | `apps/lua/scripts/chatroom/chatroom_server.lua:160-182` | the member list and messages after a disconnect |

## Left out

- libuv, sockets, listening, connecting and UDP sessions: a read brings a chunk of at most the offered window, or fails, and a close happens.
- The WebSocket handshake and the WebSocket branch of `UVSession::send_data`: sessions start past their handshake.
- WebSocket opcodes other than text, binary and close: such a header is never readable, and a buffer full of it breaks the session.
- `Gateway.KeysOk`: keys are followed while the counter is at most 2^32; past that a session's field would no longer hold its key.
- `CacheAlloc.CacheAllocator.constructor`: sizes are natural numbers; the overflow of capacity times element size in 32 bits is not modelled.
- `Json.Decode`: tonumber is modelled on decimal integers of up to fourteen digits; what else it accepts is a parameter, and such a number is kept as its text. Error messages carry no text.
- `Json.Encode`: no non-integer numbers, integers of 10^14 or more, sparse tables or cycles. Object fields are encoded and restored in one order, that in which the table is visited.
- Sessions in the gateway are ids that are never reused; memory of closed sessions is not modelled. Connecting to servers on a timer is the event `BackendUp`.
- `UvSession.UVSession.Serve`: claims nothing of a session once its behaviour is undefined.
- `Bursts.BurstExact`: speaks of bursts that end in an unfinished frame or in one with payload. Behind a complete empty frame the last byte is fixed by the sizes, and the answer depends on which bytes happen to be equal; `AsWritten.ReadExact` covers such reads of a TCP session.
- `StrptimeRoundTrip.ParsePrinted`: `%C` and numbers padded with blanks are not printed in it, because they are not read back.
- Protobuf messages, the command-name map, MySQL and Redis wrappers, database modules, the logger, `time_list.c`, the scheduler and `small_alloc.c`: plumbing, or only easy members.
- Logic and system services: not part of this model.
