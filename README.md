# SimpleWebsockets — a verified model of the per-connection protocol

SimpleWebsockets is a small C# WebSocket server (draft-era handshake with the
`Sec-WebSocket-Accept` key of RFC 6455). This project models its
per-connection protocol code in Dafny and proves properties of it:

- **Frame codec** (`Frames`, `dataframe.dfy`): the `DataFrame` class. It covers:
  - bit-level decoding of the two-byte base header of section 5.2 of RFC 6455;
  - the payload offset, where the 126/127 markers only move the offset;
  - XOR unmasking as in section 5.3 of RFC 6455;
  - accumulation into the raw frame, `Clear` and `SetDefaults`;
  - `ToBytes`, which writes only a 7-bit length and throws beyond 255 bytes;
  - `FromRawBytes`.

  The class keeps the source's fields. The byte array `_rawFrame` is a
  sequence, with `null` as the empty sequence, and `PayloadBytes` is
  computed from `Payload` as in the source. Each
  method is proved against a function on the frame's value (`FrameView`).
- **HTTP header parser** (`Headers`, `header.dfy`): the `Header` class. It covers:
  - a hand-written matcher for the request pattern;
  - lower-cased names and trimmed values;
  - a field collection in which `Add` accumulates, and the indexer;
  - cookie splitting;
  - protocol detection from the last path segment.

  A failed match leaves every default.
- **Handshakes** (`Handshakes`, `handshakes.dfy`): `ClientHandshake` and its
  validity, both `ToString` methods, and `GenerateResponseHandshake`. It also
  covers the answer key `Base64(SHA-1(key + GUID))` and the ordered reject
  rules of `CheckHandshake`.
- **Connection** (`Connection`, `connection.dfy`):
  - The `Context` class merges `Context` and `UserContext`. It has the hook
    slots, `Dispose`, `Reset`, `BufferSize` and the three sends.
  - The two handlers and `WebSocketAuthentication` are classes with static
    methods.
  - Everything a connection does is recorded in its value (`ContextView`): the
    hook events fired, the bytes sent, the send gate and the set-up flag.
- **Server** (`Server`, `server.dfy`): the `WebsocketServer` constructor, the
  `OriginHost`/`DestinationHost` setters, `Start`/`Stop`/`Restart`, the
  client count of `RunClient`, and `DoReceive` dispatch.

Supporting modules model the library calls the core relies on:

- `Prelude`: bytes, options, XOR.
- `Text`: `Trim`, `ToLower` on ASCII, `IndexOf`, `Split`, integer printing.
- `Utf8`: `Encoding.UTF8` on strings of Unicode scalar values, with one
  U+FFFD for each maximal ill-formed subsequence, as .NET Core 3.0 and later
  decode.
- `Base64`: `Convert.ToBase64String` per section 4 of RFC 4648, with a decoder
  to show that nothing is lost.

SHA-1 is a function parameter (`sha1`) of every member that needs it. The
authentication configuration (`AuthConfig`), the server port and whether the
server still has a policy server (`policy`) are parameters of the handlers.

Each imperative method ensures that its new state (`View()`), or its result
together with that state (`Outcome`), equals a specification function applied
to the old state. The lemmas below prove what the source promises about those
functions.

The specification and the code agree on everything modelled here. Two quirks
of the code are stated as proved properties rather than corrected:

- `ClientHandshake.ToString` prints an `Origin:` line, but the constructor
  reads `sec-websocket-origin`. A printed client handshake is therefore never
  valid when parsed back (`Handshakes.PrintedClientRejected`).
- The printed `Cookie:` line carries the collection's type name, so cookies
  do not survive the round trip (`Handshakes.ClientRoundTrip`).

## Model

| member | source | states |
|---|---|---|
| Prelude.XorTwice | Server/Classes/DataFrame.cs:294-302 | XOR with the same key byte twice gives the byte back |
| Prelude.XorZero | Server/Classes/DataFrame.cs:294-302 | XOR with a zero key byte leaves the byte unchanged |
| Text.TrimStartFacts | Server/Classes/Header.cs:121-124 | `TrimStart` removes exactly the leading run of white space and keeps the rest as a suffix |
| Text.TrimEndFacts | Server/Classes/Header.cs:110 | trimming the end removes exactly the trailing run of white space and keeps the rest as a prefix |
| Text.TrimEdges | Server/Classes/Header.cs:110 | a trimmed value has no white space at either end |
| Text.EqualsIgnoreCaseIff | Server/Classes/Header.cs:102 | the pattern's case-insensitive match of a text holds exactly when the lower-cased texts are equal |
| Text.ToLowerOfLower | Server/Classes/Header.cs:145 | text with no upper-case letter, such as a protocol name already in lower case, is left unchanged by lower-casing |
| Headers.ToLowerTwice | Server/Classes/Header.cs:109 | lower-casing is idempotent, so a lower-cased field name stays the same when lower-cased again |
| Text.ToLowerIsLower | Server/Classes/Header.cs:109 | lower-cased names contain no upper-case letter |
| Text.IndexOfFacts | Server/Classes/Header.cs:121-122 | `IndexOf` gives the first occurrence, and -1 exactly when the character is absent |
| Utf8.DecodeEncode | Server/Classes/DataFrame.cs:137-148 | `GetString(GetBytes(s)) == s` for every string, so `Payload` survives the `PayloadBytes` round trip |
| Utf8.EncodeAppend | Server/Classes/UserContext.cs:196-199 | the UTF-8 bytes of a concatenation are the concatenated bytes |
| Utf8.EncodeAscii | Server/Classes/Response.cs:30 | ASCII text such as the 501 status line encodes to one byte per character, each its code point |
| Base64.DecodeEncode | Server/Handlers/WebSocket/WebSocketAuthentication.cs:94-103 | `ToBase64String` loses nothing: decoding its output gives the bytes back |
| Base64.EncodeLength | Server/Handlers/WebSocket/WebSocketAuthentication.cs:94-103 | the output has four characters per started group of three bytes |
| Base64.EncodeAlphabet | Server/Handlers/WebSocket/WebSocketAuthentication.cs:94-103 | every output character is in the alphabet or is the padding `=` |
| Frames.DecodeEncodeHeader | Server/Classes/DataFrame.cs:223-236 | reading FIN, RSV1-3 (bits 7..4), opcode (`& 0xf`), MASK and the 7-bit length recovers every field of an in-range header |
| Frames.EncodeDecodeHeader | Server/Classes/DataFrame.cs:223-236 | header decoding and encoding are inverse: every byte pair is the encoding of its decoded fields |
| Frames.UnmaskTwice | Server/Classes/DataFrame.cs:294-302 | unmasking twice with the same 4-byte key gives the payload back |
| Frames.UnmaskZeroKey | Server/Classes/DataFrame.cs:294-302 | an all-zero key leaves the payload unchanged |
| Frames.AppendIgnoresEmpty | Server/Classes/DataFrame.cs:214-221 | `Append` with `receivedByteCount <= 0` changes no field, no raw byte and not the state |
| Frames.AppendDecodesHeader | Server/Classes/DataFrame.cs:223-247 | the flags, opcode and MASK come from bytes 0 and 1, and the state is Complete exactly when FIN is set (else Receiving) |
| Frames.AppendPayload | Server/Classes/DataFrame.cs:249-291 | the offset is 2, +2 for marker 126, +8 for 127, +4 if masked. Exactly length-field bytes are taken there and unmasked with the 4 bytes before them. The raw frame becomes old raw frame ++ chunk, `Length` grows by the length field and the payload is the latest chunk |
| Frames.AppendFailsOnlyWhenShort | Server/Classes/DataFrame.cs:214-292 | `Append` throws only when the array is too short for the header, the key or the payload |
| Frames.AppendNeverFailsOnLongBuffer | Server/Classes/DataFrame.cs:249-274 | any array of 141 bytes or more (so the 512-byte receive buffer) never makes `Append` throw |
| Frames.AppendKeepsWellFormed | Server/Classes/DataFrame.cs:214-292 | `Append` keeps the frame's invariant (4-bit opcode, non-negative offset) |
| Frames.BitsOfByte | Server/Classes/DataFrame.cs:380-385 | the `BitArray` of a byte, packed back into a number, is that byte |
| Frames.FromBitsBits | Server/Classes/DataFrame.cs:347-370 | bits packed into bytes by `CopyTo` and read back as a `BitArray` are the same bits, in the same order |
| Frames.PackByte0 | Server/Classes/DataFrame.cs:349-352 | packing the opcode bits then RSV3, RSV2, RSV1, FIN gives header byte 0 |
| Frames.PackByte1 | Server/Classes/DataFrame.cs:354 | packing the low seven length bits then MASK gives header byte 1 |
| Frames.PackHeaderBits | Server/Classes/DataFrame.cs:347-370 | the bits `ToBytes` sets, packed, are the two header bytes followed by zeros |
| Frames.FrameBytesLayout | Server/Classes/DataFrame.cs:345-378 | `ToBytes` succeeds exactly when `PayloadLength <= 255`. Its output is `TotalLength` bytes: byte 0 packs FIN, RSV1-3 and the opcode, byte 1 packs MASK and the low 7 length bits, and from `OffsetBytes` on it is the payload |
| Frames.RoundTrip | Test/DataFrameTests.cs:14-46 | a default frame with a payload under 126 bytes, serialised and read back by `FromRawBytes`, keeps its flags, opcode, mask bit, payload and payload bytes |
| Frames.NoRoundTripAt126 | Server/Classes/DataFrame.cs:251-255 | a 126-byte payload is announced with the marker 126, so reading it back fails |
| Frames.FromBytesPayload | Test/DataFrameTests.cs:49-86 | a frame made from the UTF-8 bytes of a text has those bytes as `PayloadBytes` and the text as `Payload` |
| Frames.DefaultsWellFormed | Server/Classes/DataFrame.cs:185-198 | `SetDefaults` gives a final, unmasked text frame (opcode 1) with reserved bits clear and offset 2, keeping the payload |
| Frames.CopyInto | Server/Classes/DataFrame.cs:274 | `Array.Copy` writes the source range at the index and leaves every other element |
| Frames.DataFrame.constructor | Server/Classes/DataFrame.cs:166-169 | a new frame has the default header, no payload and an empty raw frame |
| Frames.DataFrame.FromBytes | Server/Classes/DataFrame.cs:171-176 | the frame from bytes has the defaults and the bytes read as UTF-8 as its payload |
| Frames.DataFrame.FromText | Server/Classes/DataFrame.cs:178-183 | the frame from text has the defaults and the text as its payload |
| Frames.DataFrame.SetDefaults | Server/Classes/DataFrame.cs:185-198 | the new state is the old one with the default header fields |
| Frames.DataFrame.Append | Server/Classes/DataFrame.cs:214-292 | the new state and whether it throws are those of the specification proved above |
| Frames.DataFrame.ReadBaseHeader | Server/Classes/DataFrame.cs:223-259 | sets MASK, opcode, the state from FIN and the offset past the extended length |
| Frames.DataFrame.TakePayloadFrom | Server/Classes/DataFrame.cs:261-291 | copies the key and the payload, unmasks it when masked and appends it, or reports the throw |
| Frames.DataFrame.CopyPayload | Server/Classes/DataFrame.cs:272-287 | the fresh chunk is the payload range, unmasked when the frame is masked |
| Frames.DataFrame.UnmaskData | Server/Classes/DataFrame.cs:294-302 | in place, `data[i]` becomes `data[i] XOR key[i mod 4]` |
| Frames.DataFrame.AppendDataToFrame | Server/Classes/DataFrame.cs:308-326 | the raw frame becomes the old bytes followed by the data, and nothing else changes |
| Frames.DataFrame.Clear | Server/Classes/DataFrame.cs:398-403 | the raw frame is emptied (`Length` 0) and the state is Empty, and nothing else changes |
| Frames.DataFrame.BitArrayFromInteger | Server/Classes/DataFrame.cs:380-385 | succeeds exactly when `Convert.ToByte` does (0..255) and then holds the byte's eight bits |
| Frames.DataFrame.CopyBits | Server/Classes/DataFrame.cs:387-393 | the destination range receives the source bits and every other bit stays |
| Frames.DataFrame.FillHeaderBits | Server/Classes/DataFrame.cs:347-366 | an all-false array receives exactly the header bits |
| Frames.DataFrame.ToBytes | Server/Classes/DataFrame.cs:345-378 | the result is the serialisation whose layout is proved above, or None where `Convert.ToByte` throws |
| Frames.PackBits | Server/Classes/DataFrame.cs:368-370 | `bits.CopyTo(bytes, 0)` packs eight bits per byte, least significant first |
| Frames.FromRawBytes | Server/Classes/DataFrame.cs:200-207 | a new frame with all the raw bytes appended |
| Headers.Span | Server/Classes/Header.cs:48-49 | a greedy character-class run stops at the first character outside the class |
| Headers.MatchLineSound | Server/Classes/Header.cs:48-49 | a matched field line is well formed and is the text at the start of the input |
| Headers.MatchLinesSound | Server/Classes/Header.cs:48-49 | all matched lines are well formed and spell the start of the input |
| Headers.MatchLinesText | Server/Classes/Header.cs:48-49 | any well-formed field lines are matched in full, then matching goes on in what follows |
| Headers.MatchRequestSound | Server/Classes/Header.cs:102-103 | every match is a well-formed `METHOD SP PATH SP HTTP/1.1 CRLF` line followed by field lines at the start of the input |
| Headers.MatchRequestText | Server/Classes/Header.cs:102-103 | every well-formed request text matches, whatever follows |
| Headers.MatchRequestIff | Server/Classes/Header.cs:48-49 | a match succeeds exactly when the input starts with a well-formed request line and field lines |
| Headers.FindLower | Server/Classes/Header.cs:79-90 | the lookup finds the first entry whose key equals the name ignoring case, or -1 when there is none |
| Headers.FindLowerAppend | Server/Classes/Header.cs:131 | adding an entry changes a lookup only when no earlier key matched |
| Headers.ValuesAfterAdd | Server/Classes/Header.cs:131 | `Add` appends the value to its own key's values and changes no other key |
| Headers.ValuesAfterSet | Server/Classes/Header.cs:79-90 | the indexer's setter makes the value the only one of its key and changes no other key |
| Headers.GetAfterSet | Server/Classes/Header.cs:79-90 | after a set, the indexer reads back exactly what was set |
| Headers.GetAfterTwoAdds | Server/Classes/Header.cs:79-90 | repeated names accumulate: two adds read back comma-joined, the earlier first |
| Headers.CookieList | Server/Classes/Header.cs:117-127 | a cookie segment yields at most one cookie |
| Headers.ParseCookieText | Server/Classes/Header.cs:114-127 | splitting the `name=value;...` text of plain cookies gives the same cookies back |
| Headers.DropBadSegment | Server/Classes/Header.cs:119-126 | a segment without `=` is dropped silently, and the later segments still count |
| Headers.SplitJoin | Server/Classes/Header.cs:115 | `Split` on a separator absent from the parts undoes joining them |
| Headers.ProtocolOfLastSegment | Server/Classes/Header.cs:140-146 | only the last `/` segment decides the protocol |
| Headers.FieldsOfValues | Server/Classes/Header.cs:107-134 | the values stored under a name are the trimmed values of all non-cookie lines with that name, in order |
| Headers.FieldsOfKeys | Server/Classes/Header.cs:109-131 | stored names are lower case and never `cookie` |
| Headers.CookieNeverAField | Server/Classes/Header.cs:114-129 | a `cookie` line never reaches the field collection, so `cookie` reads as null |
| Headers.ParseOutcome | Server/Classes/Header.cs:137-164 | on a non-match every default stays. On a match, Method and RequestPath are the non-empty captured tokens and the protocol comes from the path |
| Headers.Header.constructor | Server/Classes/Header.cs:97-165 | the parsed header is the specification's parse of the data |
| Headers.Header.AddCookies | Server/Classes/Header.cs:114-129 | appends exactly the cookies of the value and changes nothing else |
| Headers.Header.Set | Server/Classes/Header.cs:79-90 | the indexer's setter replaces that key's values, which then read back |
| Handshakes.LineFieldPresent | Server/Handlers/WebSocket/Handshakes.cs:62-70 | a handshake field is non-null exactly when at least one line carries it |
| Handshakes.ClientFromRequest | Server/Handlers/WebSocket/Handshakes.cs:62-70 | ResourcePath is the request path, and Origin/Host/Key/SubProtocol are the `sec-websocket-origin`/`host`/`sec-websocket-key`/`sec-websocket-protocol` values. A non-match gives the header defaults |
| Handshakes.ValidFromRequest | Server/Handlers/WebSocket/Handshakes.cs:78-86 | a request gives a valid handshake exactly when it matched and has host, key and origin lines (empty values pass) |
| Handshakes.AppendFields | Server/Handlers/WebSocket/Handshakes.cs:105-111 | the loop appends one `k: v` line per additional field, in order |
| Handshakes.ClientToString | Server/Handlers/WebSocket/Handshakes.cs:94-119 | the accumulated string is the filled client template |
| Handshakes.ClientTextMatches | Server/Handlers/WebSocket/Handshakes.cs:94-119 | the printed request matches the request pattern. Its lines are the fixed ones, then a Cookie line iff Cookies is non-null and a protocol line iff SubProtocol is non-null, then the additional fields, then the empty line |
| Handshakes.ClientRoundTrip | Server/Handlers/WebSocket/Handshakes.cs:62-119 | parsing a printed handshake gives back its path, host, key and subprotocol, but loses the origin and the cookies, so it is never valid |
| Handshakes.ServerTextFields | Server/Handlers/WebSocket/Handshakes.cs:131-164 | the response is the status line, the five fixed lines with Origin, Location and AnswerKey in that order, the `Sec-WebSocket-Protocol` line iff SubProtocol is non-null, and an empty CRLF line |
| Handshakes.ResponseFields | Server/Handlers/WebSocket/WebSocketAuthentication.cs:73-84 | the response echoes Origin and SubProtocol, has Location `ws://` + Host + ResourcePath, and carries the accept key of the client's key |
| Handshakes.AnswerKeyDecodes | Server/Handlers/WebSocket/WebSocketAuthentication.cs:94-103 | the answer key is the Base64 of SHA-1(key + GUID) and depends only on the key: decoding it gives that digest |
| Handshakes.AnswerKeyLength | Server/Handlers/WebSocket/WebSocketAuthentication.cs:94-103 | a 20-byte digest gives a 28-character key |
| Handshakes.SampleAnswerKey | Server/Handlers/WebSocket/WebSocketAuthentication.cs:94-103 | the worked example of section 1.3 of RFC 6455 gives `s3pPLMBiTxaQ9kYGzzhZRbK+xOo=` |
| Handshakes.AdmitsRequest | Server/Handlers/WebSocket/WebSocketAuthentication.cs:41-46 | with no allow-list, a request is admitted exactly when more than 8 bytes arrived and it is a valid handshake |
| Handshakes.AllowListsNarrow | Server/Handlers/WebSocket/WebSocketAuthentication.cs:49-59 | a configured server admits exactly what an unconfigured one admits whose origin is `http://` + Origin (if set) and whose host is Location:port (if set) |
| Handshakes.PrintedClientRejected | Server/Handlers/WebSocket/WebSocketAuthentication.cs:41-46 | the request `ClientHandshake.ToString` prints is never admitted |
| Connection.WithHookOnlyThatSlot | Server/Classes/UserContext.cs:159-189 | each `Set*` replaces its own hook slot and no other |
| Connection.DisposeFiresAtMostOnce | Server/Classes/UserContext.cs:313-333 | `Dispose` fires the disconnect hook exactly when the context was connected, and always leaves it disconnected |
| Connection.DisposeTwice | Server/Classes/UserContext.cs:313-333 | a second `Dispose` changes nothing, so there is no second disconnect |
| Connection.ResetKeepsPartialFrame | Server/Classes/UserContext.cs:339-347 | `Reset` clears the frame only when it is Complete, keeps a Receiving frame, and always zeroes ReceivedByteCount |
| Connection.ResetTwice | Server/Classes/UserContext.cs:339-347 | resetting twice is resetting once |
| Connection.TransmitBalanced | Server/Handlers/DefaultHandler.cs:132-195 | an unframed send sends the bytes verbatim and releases the send gate it took on every path. `OnSend` fires exactly when a connection exists, and with close the context is then disposed |
| Connection.FramedSendReadsBack | Server/Handlers/WebSocketHandler.cs:104-125 | a framed send of text under 126 bytes puts one frame on the wire, which reads back as a final text frame carrying the text |
| Connection.FramedSendTooLong | Server/Handlers/WebSocketHandler.cs:104-125 | a payload over 255 bytes makes the framed send throw before anything is sent |
| Connection.CheckedKeepsHeader | Server/Handlers/WebSocket/WebSocketAuthentication.cs:61-70 | every rejecting or throwing path of `CheckHandshake` sends nothing and changes nothing |
| Connection.AuthenticateOutcome | Server/Handlers/WebSocketHandler.cs:83-96 | the context is set up exactly when the handshake is admitted, and the response goes out once, only then. An admitted context copies Protocol and RequestPath and drops the header; a rejected one is disposed and stays not set up |
| Connection.SetupFeedsFrame | Server/Handlers/WebSocketHandler.cs:63-71 | on a set-up context the bytes go to the frame only, and `OnReceive` fires exactly when the frame is then Complete |
| Connection.HandshakeNeverFramed | Server/Handlers/WebSocketHandler.cs:72-75 | a context that is not set up never reaches the frame codec |
| Connection.SetupNeverThrowsOnDefaultBuffer | Server/Handlers/WebSocketHandler.cs:63-71 | with the 512-byte buffer, feeding the frame never throws |
| Connection.PolicyRequestDisposes | Server/Handlers/DefaultHandler.cs:81-94 | the policy probe is disposed. The policy answer goes out exactly when the server has a policy server and the connection is open; no header is made and the handler stays |
| Connection.UnknownProtocolRejected | Server/Handlers/DefaultHandler.cs:119-122 | with no known protocol the handler stays Default, `HTTP/1.1 501 Not Implemented` goes out unframed, and the context is disposed |
| Connection.UpgradeAuthenticates | Server/Handlers/DefaultHandler.cs:99-117 | a WebSocket or FlashSocket header switches the handler and is authenticated in the same call. The context ends set up exactly when the handshake is admitted |
| Connection.DefaultReadsOnlyReceived | Server/Handlers/DefaultHandler.cs:81-97 | only the first ReceivedByteCount bytes of the buffer decide what the default handler does |
| Connection.SetupIsFinal | Server/Handlers/WebSocketHandler.cs:90 | once set up, a context stays set up whatever it receives, sends, resets or disposes |
| Connection.Context.constructor | Server/Classes/UserContext.cs:239-308 | a new context is connected, not set up, has the Default handler, path `/`, no protocol and a fresh 512-byte buffer |
| Connection.Context.SetBufferSize | Server/Classes/UserContext.cs:285-298 | the buffer becomes a fresh array of exactly that length. A negative size throws and the old buffer stays |
| Connection.Context.Dispose | Server/Classes/UserContext.cs:313-333 | the new state is the disposed state of the lemmas above |
| Connection.Context.Reset | Server/Classes/UserContext.cs:339-347 | the new state is the reset state of the lemmas above |
| Connection.Context.OnConnect | Server/Classes/UserContext.cs:97-106 | records the connect slot's event and changes nothing else |
| Connection.Context.OnDisconnect | Server/Classes/UserContext.cs:112-122 | clears Connected and records the disconnect slot's event |
| Connection.Context.OnSend | Server/Classes/UserContext.cs:128-137 | records the send slot's event |
| Connection.Context.OnReceive | Server/Classes/UserContext.cs:143-152 | records the receive slot's event |
| Connection.Context.SetOnConnect | Server/Classes/UserContext.cs:159-162 | replaces the connect slot only |
| Connection.Context.SetOnDisconnect | Server/Classes/UserContext.cs:168-171 | replaces the disconnect slot only |
| Connection.Context.SetOnSend | Server/Classes/UserContext.cs:177-180 | replaces the send slot only |
| Connection.Context.SetOnReceive | Server/Classes/UserContext.cs:186-189 | replaces the receive slot only |
| Connection.Context.Send | Server/Classes/UserContext.cs:206-209 | sends the bytes through the current handler |
| Connection.Context.SendText | Server/Classes/UserContext.cs:196-199 | `Send(string)` is `Send` of its UTF-8 bytes |
| Connection.Context.SendRaw | Server/Classes/UserContext.cs:215-218 | always the default handler: unframed and never closing |
| Connection.DefaultHandler.HandleRequest | Server/Handlers/DefaultHandler.cs:63-73 | a set-up context is disposed, otherwise the header is processed |
| Connection.DefaultHandler.ProcessHeader | Server/Handlers/DefaultHandler.cs:79-122 | the policy answer (only with a policy server and an open connection), the switch to the WebSocket handler or the 501 rejection, as the lemmas above state |
| Connection.DefaultHandler.StoreHeader | Server/Handlers/DefaultHandler.cs:97-105 | the header is the parse of the received text, and the handler switches exactly for a known protocol |
| Connection.DefaultHandler.Reject | Server/Handlers/DefaultHandler.cs:119-122 | sends the 501 status line unframed with close |
| Connection.DefaultHandler.Send | Server/Handlers/DefaultHandler.cs:132-155 | the unframed send of `Connection.TransmitBalanced` |
| Connection.DefaultHandler.EndSend | Server/Handlers/DefaultHandler.cs:157-176 | fires `OnSend` and releases the gate |
| Connection.DefaultHandler.EndSendAndClose | Server/Handlers/DefaultHandler.cs:178-195 | fires `OnSend`, releases the gate and disposes |
| Connection.WebSocketHandler.HandleRequest | Server/Handlers/WebSocketHandler.cs:61-76 | frame feeding when set up, otherwise authentication |
| Connection.WebSocketHandler.Authenticate | Server/Handlers/WebSocketHandler.cs:83-96 | the outcome of `Connection.AuthenticateOutcome` |
| Connection.WebSocketHandler.Send | Server/Handlers/WebSocketHandler.cs:104-125 | sends exactly `new DataFrame(data).ToBytes()`, or reports its throw |
| Connection.WebSocketHandler.EndSend | Server/Handlers/WebSocketHandler.cs:131-150 | fires `OnSend` and releases the gate |
| Connection.WebSocketHandler.EndSendAndClose | Server/Handlers/WebSocketHandler.cs:152-169 | fires `OnSend`, releases the gate and disposes |
| Connection.WebSocketAuthentication.CheckHandshake | Server/Handlers/WebSocket/WebSocketAuthentication.cs:39-71 | the verdict of the ordered reject rules. The response is sent exactly when it admits, and a throw is reported |
| Connection.WebSocketAuthentication.SendServerHandshake | Server/Handlers/WebSocket/WebSocketAuthentication.cs:86-92 | sends the UTF-8 bytes of the response text unframed |
| Server.ConstructedDefaults | Server/WebsocketServer.cs:187-203 | the port is the given one when positive and 81 otherwise, and the address is the given one or Any. The server is not listening and has no clients |
| Server.StartListensIff | Server/WebsocketServer.cs:208-232 | after `Start` the server listens exactly when it already did or its address and port are usable |
| Server.StartIdempotent | Server/WebsocketServer.cs:208-232 | `Start` creates a listener only when none exists, so a second `Start` changes nothing |
| Server.StartPolicyServer | Server/AccessPolicyServer.cs:83-117 | the policy server allows the origin host, or `*` when none is set, on the server's port. It listens on port 843 exactly when Flash support is on and an address is set |
| Server.StopClears | Server/WebsocketServer.cs:237-260 | `Stop` leaves neither listener nor policy server, keeps the configuration and the count, and is idempotent |
| Server.RestartForgetsListener | Server/WebsocketServer.cs:265-269 | `Restart` is `Stop` then `Start`: the result does not depend on the listener it finds |
| Server.AcceptedLifecycle | Server/WebsocketServer.cs:329-366 | an accepted client gets the four default hooks and a 512-byte buffer before `OnConnect`. At the end of the `using` block it is disconnected exactly once |
| Server.ReceiveNothingDisposes | Server/WebsocketServer.cs:377-397 | a receive that throws or brings 0 bytes disposes the context and sends nothing |
| Server.ReceiveKeepsSetup | Server/WebsocketServer.cs:377-397 | a set-up connection stays set up whatever a receive brings |
| Server.ReceiveFeedsFrame | Server/WebsocketServer.cs:377-397 | on a set-up WebSocket connection a non-empty receive is appended to the reset frame, and `OnReceive` fires exactly when it is then Complete |
| Server.HandshakeReadsOnlyInput | Server/WebsocketServer.cs:377-397 | before set-up only the bytes of the receive itself matter |
| Server.ReceivedKeeps | Server/WebsocketServer.cs:373-398 | every receive keeps the invariant that the disconnect hook has fired exactly when the context is no longer connected, and never twice |
| Server.AcceptedDisconnectedOnce | Server/WebsocketServer.cs:329-342 | an accepted context starts with that invariant |
| Server.WebsocketServer.constructor | Server/WebsocketServer.cs:187-203 | the new server is the constructed state of `Server.ConstructedDefaults` |
| Server.WebsocketServer.SetOriginHost | Server/WebsocketServer.cs:119-132 | sets OriginHost and the authentication Origin to the same value |
| Server.WebsocketServer.SetDestinationHost | Server/WebsocketServer.cs:140-152 | sets DestinationHost and the authentication Location to the same value |
| Server.WebsocketServer.Start | Server/WebsocketServer.cs:208-232 | the started state |
| Server.WebsocketServer.Stop | Server/WebsocketServer.cs:237-260 | the stopped state |
| Server.WebsocketServer.Restart | Server/WebsocketServer.cs:265-269 | the restarted state |
| Server.WebsocketServer.RunClient | Server/WebsocketServer.cs:302-367 | without an accepted connection nothing changes. With one, the client count goes up once and down once, so the server state ends where it began |
| Server.WebsocketServer.DoReceive | Server/WebsocketServer.cs:373-398 | Reset, then the count from the receive. More than 0 bytes go to the current handler; anything else disposes |

## Left out

- The accept loop and receive loop: `Listen`, the `while` in `RunClient`, and the idle `TimeOut`. `RunClient` goes straight from `OnConnect` to the end of its `using` block, and each receive is a separate `DoReceive` call.
- Server.WebsocketServer.RunClient: does not model the receive loop inside the `using` block. The context it returns has been through `OnConnect` and `Dispose` only.
- `SemaphoreSlim` synchronisation (`_connectReady`, `_clientLock`, `ReceiveReady`, `CreateLock`) is concurrency. `SendReady` is a counter (`sendGate`) used to state that every send releases what it takes.
- Socket I/O: sends are appended to the context's output log (`sent`), and a receive is an input event (`Option<seq<byte>>`). Asynchronous completions (`EndSend`, `EndSendAndClose`) run at once; an `EndReceive` that throws is `None`.
- SHA-1 is a parameter, because the digest is a foreign call; only the Base64 around it is defined.
- `String.ToLower` is modelled on ASCII letters only. Culture-specific case mapping is left out.
- The .NET regex engine, `NameValueCollection` and `HttpCookieCollection` are replaced by a hand-written matcher and sequences. Cookie attributes (path, domain, expiry) are not modelled.
- `AccessPolicyServer` keeps only its configuration and the port it listens on. Its response is an external effect recorded as `PolicyAnswer`, and its accept loop is left out.
- Server.WebsocketServer.Start: a policy listener left running when the main listener fails to start is not modelled.
- `_rawFrame` is a `seq<byte>` rather than an array: `Append` builds a new array and replaces the old one, so no array is updated in place; a `null` frame and an empty one are not told apart, as `Length` does not tell them apart either.
- Utf8.DecodeEncode: holds for strings of Unicode scalar values only. A .NET string with a lone surrogate cannot be written as a Dafny `string`, and `GetBytes` would replace it, so the round trip does not hold for it.
- Connection.FramedSendTooLong: counts U+FFFD replacements per maximal ill-formed subsequence, as .NET Core 3.0 and later decode. .NET Framework may substitute at a different granularity, which can change the payload length.
- Logging (log4net, `Console.WriteLine`) and the `PrettyPrint*` helpers have no effect on the protocol.
- Exceptions and side effects of user hooks: a hook is recorded as an event naming its delegate.
- `UserContext.ClientAddress`, `UserContext.Data`, `ServerHandshake.AdditionalFields` (never printed) and the `Header` reference kept in `UserContext` are not modelled.
- The static `WebSocketAuthentication.Origin`/`Location` are a field of the server (`auth`) passed to the handlers, so the model assumes one server per process. A null assigned to `OriginHost` or `DestinationHost` is not modelled.
- Server.WebsocketServer.DoReceive: an exception escaping a handler is reported only through the `ok` result.
- `TcpListener.Start`, binding failures and the listen queue are not modelled. A listener exists exactly when an address is set and the port is in 0..65535.
- ConsoleExample/SimpleServer.cs is an example application and is not part of this model.
- `Dispose` of the server and of the policy server is not part of this model.
