# WebSocket socket layer of schema-based-transfer-protocol, in Dafny

The repository runs its own WebSocket layer on top of Node.js `net` sockets
and ships it in two versions. The newer one is in `src/lib/net.ts`:

- its `data` listener parses every chunk before the upgrade as an HTTP
  request;
- it answers a request that does not ask for `Upgrade: websocket` with a
  302 redirect;
- it answers an upgrade request that carries a key with
  `101 Switching Protocols`;
- after the upgrade it buffers chunks and decodes masked client frames in a
  loop, emitting one `message` per frame and defining `closeStat` on a close
  frame.

The older one is in `src/net.ts`. It parses every chunk as a request, reads
each later chunk as exactly one frame, unmasks that frame in place in the
chunk, and collects fragments in a list kept between chunks. Both versions
patch `Socket.prototype.send` to write one unfragmented server frame.
`src/utils/packing.ts` wraps values for the wire: the UTF-8 JSON bytes,
complemented and reversed.

The model has five modules:

- `Wire` (wire.dfy): bytes, XOR masking, big-endian integers, the frame
  `send` writes and the frame a client writes.
- `Http` (http.dfy): the header scan shared by `parseChunk` and
  `paresHeaders`. It is a value-level `Parse` plus the scanning loops
  proved equal to it.
- `Engine` (engine.dfy): the newer engine. The class `Connection` holds the
  per-socket fields. `Receive` and `SendStep` say what one call does to
  their value `ConnState`.
- `Legacy` (legacy.dfy): the older engine. The class `LegacyConnection`
  works on the chunk as an `array` that it unmasks in place. `Handle` and
  `SendStep` are its specification.
- `Packing` (packing.dfy): `packData` and `unpackData`. `unpackData`
  reverses its argument array in place, as `Array.prototype.reverse` does.

Writes are logged as values. The text of an HTTP response is given by
`Http.Render`. The outcome of a write's callback is a parameter
(`writeSucceeds`), and what the callback does is applied at once.

The model keeps the behaviour of the code as written, including these cases:

- **Engine, wait test.** The frame loop waits only for `start + length`
  bytes. It does not count the four mask bytes, so a frame missing its last
  one to four bytes is emitted short (`Engine.ClientFrameCutShort`).
- **Engine, 64-bit lengths.** For the 64-bit length form the loop reads 4
  of the 8 length bytes (`Engine.LongClientFrameMisread`).
- **Engine, header lines.** The line just before the blank line is never
  stored. A `Sec-WebSocket-Key` written last is therefore ignored
  (`Engine.KeyOnLastLineIgnored`).
- **Engine, close frames.** A close frame stays in the buffer. Every later
  chunk then throws a TypeError, because `closeStat` would be defined twice
  (`Engine.CloseIsFinal`).
- **Legacy, payload offset.** The older engine always reads the payload
  from offset 6 (`Legacy.MediumClientFrameMisread`).
- **Legacy, length 125.** `getLength` keeps the seven-bit length only below
  125 and sends 125 to the 64-bit read, where section 5.2 of RFC 6455 makes
  125 a payload length (`Legacy.MaskedLength`).
- **Legacy, `getLength`.** It drops the top bit of the length byte, which
  is the MASK bit only when the frame is masked
  (`Legacy.UnmaskedLengthMisread`).
- **Legacy, fragments.** A final frame with an opcode other than 1 or 2
  drops the whole collected message (`Legacy.FragmentedMessage`).
- **`send`.** It never uses the extended length forms
  (`Wire.ServerFrameLongPayload`).

## Model

| member | source | states |
|---|---|---|
| Wire.XorTwice | src/lib/net.ts:155 | XOR with the same byte twice restores the byte |
| Wire.MaskedTwice | src/lib/net.ts:153-156 | masking a payload with `mask[i % 4]` twice restores it, so the client's masking is undone exactly |
| Wire.BigEndianRoundTrip | src/lib/net.ts:139-142 | reading the big-endian bytes of `n` (readUInt16BE / readUInt32BE / readBigUInt64BE) gives `n` back |
| Wire.XorBitsZero | src/lib/net.ts:155 | XOR with 0 keeps a value; this is the `x ^ undefined` of a mask byte read past the end |
| Wire.ServerFrameShortForm | src/lib/net.ts:180-196 | the frame `send` builds for at most 125 bytes reads back, as a short frame, with FIN set, its opcode and the payload |
| Wire.ServerFrameLongPayload | src/lib/net.ts:186-189 | for more than 125 bytes the length byte is the length mod 256 and the frame is not a well-formed short frame |
| Wire.ServerFrame | src/lib/net.ts:184-190 | the frame `send` writes has FIN set, the opcode in its low nibble, the length mod 256 in byte 1, then the payload unmasked |
| Wire.Masked | src/lib/net.ts:153-156 | the unmasked payload has the payload's length |
| Wire.BigEndian | src/lib/net.ts:139-142 | a big-endian read of w bytes is below 256^w |
| Wire.BuildFrame | src/lib/net.ts:186-190 | the buffer of length + 2 bytes filled byte by byte is exactly the server frame: `0x80 \| opcode`, the truncated length, the payload |
| Wire.ClientFrameLayout | src/lib/net.ts:133-152 | where the header, the mask, the masked payload and what follows sit in the bytes of a client frame |
| Http.NextCrlf | src/lib/net.ts:30-31 | the result is the first CR LF at or after the start, and there is none before it; `None` when there is none at all |
| Http.SplitLines | src/lib/net.ts:29-40 | the body starts between the first line's start and the end of the chunk |
| Http.BodyStartAfterCrlf | src/lib/net.ts:33-35 | where the scan moves the body start, it lies just past a CR LF |
| Http.SplitOnSpace | src/lib/net.ts:42 | `split(/\s/g)` gives at least one piece |
| Http.SplitOn | src/lib/net.ts:49 | `split(": ")` gives at least one piece, its first piece holds no ": ", and joining the pieces with ": " gives the line back |
| Http.Join | src/lib/net.ts:113-119 | `join` starts with the first part and, with two parts or more, ends with the separator and the last part |
| Http.Render | src/lib/net.ts:101-119 | the redirect starts with the 302 status line and ends with a blank line and "OK"; the 101 reply starts with its status line and ends with a blank line |
| Http.StoreRequestLine | src/lib/net.ts:41-47 | the method is always stored; with the "" defaults the path and the protocol are always strings |
| Http.StoreLines | src/lib/net.ts:41-50 | storing lines never removes a name, and a run that starts with the request line defines `:method:`, `:path:` and `:protocol:` |
| Http.ScanLines | src/lib/net.ts:30-52 | the inner `for` loop keeps what the rest of the scan returns unchanged while it moves `i`, `j` and the headers forward |
| Http.ParseChunk | src/lib/net.ts:22-58 | `parseChunk` (and, without the "" defaults, `paresHeaders` at src/net.ts:16-52) returns exactly `Parse` of the chunk |
| Http.Parse | src/lib/net.ts:22-58 | the body is always a suffix of the chunk, and the whole chunk with no headers when it is shorter than 4 bytes |
| Http.StoreHeaderLine | src/lib/net.ts:49-50 | a header line changes only the entry named by its text before the first ": " (none for `__proto__`); that entry is `undefined` exactly when the line has no ": " |
| Http.ParseWithoutCrlf | src/lib/net.ts:54-57 | a chunk without CR LF stores no header and returns the whole chunk as body |
| Http.ParseBodyAfterHeaderEnd | src/lib/net.ts:34-37 | with a CR LF CR LF the body is everything after the first one |
| Http.ParseBodyAfterLastCrlf | src/lib/net.ts:31-33 | with no CR LF CR LF the body is what follows the last CR LF |
| Http.ParseOfJoinedLines | src/lib/net.ts:29-53 | lines L0..Ln written with CR LF after each and a blank line store L0 as request line and L1..Ln-1 as headers; Ln is dropped and the body is what follows the blank line |
| Http.SplitLinesOfJoin | src/lib/net.ts:29-40 | the scan over such a chunk keeps every line but the last and finds the body after the blank line |
| Http.HeaderLineEntry | src/lib/net.ts:49-50 | `name: value` stores value under name, also when more ": "-separated fields follow |
| Http.HeaderLineWithoutValue | src/lib/net.ts:49-50 | a line without ": " stores its text as a name with the value `undefined` |
| Http.ProtoHeaderIgnored | src/lib/net.ts:50 | assigning to `headers["__proto__"]` adds no header |
| Http.RequestLineTokens | src/lib/net.ts:42-45 | `METHOD PATH PROTOCOL` stores the three words under `:method:`, `:path:`, `:protocol:` |
| Http.RequestLineOneWord | src/net.ts:36-39 | a one-word request line stores "" for path and protocol in the newer engine and `undefined` in the older |
| Http.UpgradeHeaders | src/lib/net.ts:49-50 | a request line, `Upgrade: websocket` and `Sec-WebSocket-Key: k` give headers with Upgrade = websocket and the key k |
| Engine.WebSocketKey | src/lib/net.ts:107-109 | a key is found exactly when one of the two spellings holds a non-empty string; it is the `Sec-WebSocket-Key` value when that is non-empty, the `Sec-Websocket-Key` value otherwise |
| Engine.Redirect | src/lib/net.ts:100-105 | exactly one write is appended, the Found redirect to `:path:`, and the socket is ended; nothing else changes |
| Engine.Accept | src/lib/net.ts:110-128 | the 101 response with the digest of key + GUID is appended; `upgraded` is set and the request's headers and body emitted exactly when the write succeeds; buffer, `closeStat` and `ended` are kept |
| Engine.Handshake | src/lib/net.ts:99-130 | the handshake keeps the buffer and `closeStat` and writes nothing or one HTTP response; a request that is not an upgrade gets exactly the redirect to its `:path:` and ends the socket; an upgrade request with key k gets exactly the 101 response with the digest of k + GUID, does not end the socket, and upgrades and emits the request exactly when the write succeeds; a keyless upgrade request changes nothing |
| Engine.Drain | src/lib/net.ts:133-168 | the loop never lengthens the buffer; a defined `closeStat` stays as it is; a new `closeStat` comes only with a normal return |
| Engine.DrainRestIsSuffix | src/lib/net.ts:167 | what the loop leaves in the buffer is the end of what it was given: frames are consumed only from the front |
| Engine.Receive | src/lib/net.ts:91-172 | with `allowHTTP` off nothing changes; only an upgraded socket can throw; after the upgrade incoming data never writes, ends the socket or clears `upgraded`; before it the buffer and `closeStat` stay untouched |
| Engine.ReadHead | src/lib/net.ts:134-144 | opcode is the low nibble; the payload starts at 2, 4 or 6 by the length form; the read throws exactly when the extended length is cut |
| Engine.FramePayload | src/lib/net.ts:148-156 | the decoded payload has as many bytes as the clamped payload subarray |
| Engine.Unmask | src/lib/net.ts:153-156 | the loop into a fresh buffer produces the masked (= unmasked) payload |
| Engine.ReadFrameHead | src/lib/net.ts:134-144 | the header reads of one loop turn give `ReadHead` |
| Engine.NextFrame | src/lib/net.ts:133-167 | one turn waits, throws, defines `closeStat` (only when undefined) or hands back a message and a strictly shorter buffer, each as `Drain` prescribes |
| Engine.RunFrames | src/lib/net.ts:133-168 | the `while (buffer.length >= 2)` loop returns exactly `Drain` of the buffer |
| Engine.Connection.constructor | src/lib/net.ts:88-91 | a new socket has an empty buffer, is not upgraded, has no `closeStat`, no events, no writes |
| Engine.Connection.OnData | src/lib/net.ts:91-172 | one `data` event leaves the fields and the outcome that `Receive` prescribes |
| Engine.Connection.AnswerHandshake | src/lib/net.ts:94-130 | before the upgrade: redirect and end, ignore a keyless upgrade, or write the 101 response and, if it succeeds, upgrade and emit the request |
| Engine.Connection.DecodeFrames | src/lib/net.ts:132-170 | after the upgrade: the chunk is appended, the frame loop runs, the rest of the buffer is kept and the messages are appended to the events |
| Engine.Connection.Send | src/lib/net.ts:180-196 | `send` rejects before the upgrade without writing; otherwise it writes the server frame and settles by the write's outcome |
| Engine.ReceivePreservesValid | src/lib/net.ts:91-172 | nothing is emitted or buffered before the upgrade; the upgrade is the first event and all later ones are messages; `upgraded` is never cleared; the write log only grows; after the upgrade incoming data never writes |
| Engine.HandshakePreservesValid | src/lib/net.ts:99-130 | the handshake branch keeps the connection invariant and only appends to the write log |
| Engine.DrainPreservesValid | src/lib/net.ts:132-168 | the frame branch keeps the connection invariant |
| Engine.HandshakeChunkNotFramed | src/lib/net.ts:94-96 | the chunk carrying the handshake is never decoded as frames; the only event it can cause is the upgrade with the parsed request |
| Engine.ShortChunkRedirects | src/lib/net.ts:26 | a chunk of fewer than 4 bytes before the upgrade is redirected to `.../undefined` and the socket ended |
| Engine.NonUpgradeRedirected | src/lib/net.ts:99-106 | before the upgrade, any chunk whose parsed headers lack `Upgrade: websocket` gets exactly the redirect to its `:path:` and ends the socket; nothing is upgraded, emitted or buffered |
| Engine.KeylessUpgradeIgnored | src/lib/net.ts:107-109 | before the upgrade, any upgrade request where neither key spelling holds a non-empty string changes nothing: no write, no end, no upgrade, no event |
| Engine.KeyedUpgradeAnswered | src/lib/net.ts:107-128 | before the upgrade, any upgrade request with key k gets exactly the 101 response with the digest of k + GUID; the socket is upgraded and emits the request's headers and body exactly when the write succeeds, and is not ended |
| Engine.UpgradeRequestAccepted | src/lib/net.ts:107-128 | a 4-line request (Upgrade second, key third) with a successful write gets the 101 response with the digest of key + GUID, upgrades the socket and emits its headers and body |
| Engine.KeyOnLastLineIgnored | src/lib/net.ts:31-40 | when the key is on the line before the blank line it is never stored: nothing is written and nothing changes |
| Engine.UpgradeHeadersWithoutKey | src/lib/net.ts:107-109 | a request with only `Upgrade: websocket` has no key |
| Engine.ClientFrameHead | src/lib/net.ts:134-156 | the header of a client frame below 65536 bytes is read correctly and its payload decoded exactly |
| Engine.DrainClientFrame | src/lib/net.ts:145-167 | a data frame followed by anything: its payload is emitted and the loop goes on after it |
| Engine.DrainClientClose | src/lib/net.ts:157-164 | a close frame with fewer than two payload bytes throws a RangeError; otherwise it defines `closeStat` from its status and reason and stays in the buffer, and with `closeStat` already defined it throws a TypeError |
| Engine.DrainClientStream | src/lib/net.ts:133-168 | any run of client data frames in one buffer is decoded into exactly their payloads in order, leaving nothing |
| Engine.ReceiveClientStream | src/lib/net.ts:132-168 | on an upgraded socket such a chunk emits one message per frame and writes nothing |
| Engine.WholeClientFrame | src/lib/net.ts:145-167 | a buffer holding exactly one data frame gives its payload and is emptied |
| Engine.ClientFrameInTwoChunks | src/lib/net.ts:132-147 | a frame split into two chunks (inside its first two bytes, or inside its payload) is kept after the first and emitted whole after the second |
| Engine.ReadHeadPrefix | src/lib/net.ts:134-144 | a header already complete reads the same once more bytes arrive |
| Engine.HeadOfClientFrame | src/lib/net.ts:134-144 | a client frame's header is read from its first bytes alone |
| Engine.CutFrame | src/lib/net.ts:145-156 | what the loop reads from a client frame cut after its header |
| Engine.UnmaskedTail | src/lib/net.ts:148-156 | the bytes of a cut payload decode to the prefix that arrived |
| Engine.ClientFrameCutShort | src/lib/net.ts:145-147 | a frame missing its last one to four bytes is not waited for: a short payload is emitted and the buffer emptied |
| Engine.ExtendedHeaderCutThrows | src/lib/net.ts:138-140 | a 16-bit length form cut before byte 4 throws a RangeError |
| Engine.LongClientFrameMisread | src/lib/net.ts:141-143 | a 64-bit length is read as its high 32 bits (zero): an empty message is emitted and the mask and payload are read as the next frame |
| Engine.DrainAfterClose | src/lib/net.ts:157-164 | after a close frame, more bytes make the loop throw a TypeError on the same close frame |
| Engine.CloseIsFinal | src/lib/net.ts:157-164 | once `closeStat` is defined every later data event throws, emits nothing and keeps the chunk in the buffer |
| Engine.SendWritesOneFrame | src/lib/net.ts:180-196 | `send` writes one frame that reads back with FIN, the opcode (2 for a Buffer, 1 otherwise) and the payload, and changes nothing else |
| Engine.SendStep | src/lib/net.ts:180-196 | `send` changes only the writes: nothing before the upgrade, exactly the server frame of the payload after it; it resolves exactly when the socket is upgraded and the write succeeds |
| Legacy.Binary | src/net.ts:61 | `toString(2)` is a non-empty string of binary digits starting with 1 for positive values, one digit long exactly for 0 and 1 |
| Legacy.BinaryRoundTrip | src/net.ts:61-62 | `parseInt(n.toString(2), 2)` is n |
| Legacy.BinaryWithoutTopBit | src/net.ts:61-62 | dropping the first binary digit removes the top bit |
| Legacy.BaseLengthValue | src/net.ts:60-62 | the base length is the byte without its top bit, NaN for 0 and 1 |
| Legacy.BaseLength | src/net.ts:60-62 | the base length is NaN exactly for the bytes 0 and 1 |
| Legacy.GetLength | src/net.ts:59-66 | a length is found only when the buffer has its first byte |
| Legacy.MaskedBaseLength | src/net.ts:60-62 | with the MASK bit set the base length is the low seven bits |
| Legacy.MaskedLength | src/net.ts:59-66 | for masked frames `getLength` is the seven-bit length up to 124, the 16-bit length after 126, and the 64-bit length after 125 or 127 |
| Legacy.UnmaskedLengthMisread | src/net.ts:59-66 | without the MASK bit a length byte from 2 to 127 reads smaller (125-127 as 61-63, never an extended form), and 0 and 1 go to the 64-bit read |
| Legacy.UnmaskedFiveReadAsOne | src/net.ts:59-66 | an unmasked 5-byte length reads as 1 |
| Legacy.TopBitOfRange | src/net.ts:61-62 | the top bit of a value between 2^k and 2^(k+1) is 2^k |
| Legacy.LegacyKey | src/net.ts:80-81 | a key is found exactly when `Sec-WebSocket-Key` holds a non-empty string, and it is that string |
| Legacy.Accept | src/net.ts:82-96 | the 101 response with the digest of key + GUID is appended; `upgraded` is set and the body emitted exactly when the write succeeds; `prevPayloads` is kept |
| Legacy.ReadFrame | src/net.ts:102-108 | a frame is read exactly when the chunk has a first byte and `getLength` does not throw, and the chunk keeps its length |
| Legacy.ReadUnmaskedFrame | src/net.ts:104-108 | with the MASK bit clear the payload is the chunk's bytes from offset 6 to 6 + length, both clamped, and the chunk is left unchanged |
| Legacy.Deliver | src/net.ts:109-126 | delivery never writes or changes `upgraded`; a fragment is appended to `prevPayloads` and emits nothing; a final frame empties `prevPayloads` and appends at most one event |
| Legacy.Handle | src/net.ts:68-130 | with `allowHTTP` off nothing changes; the chunk keeps its length; the only throw is the RangeError of `getLength` on an upgraded socket, which changes neither the state nor the chunk |
| Legacy.Respond | src/net.ts:79-126 | the same for a chunk and its parsed request; the state or the chunk changes only for an upgrade request or on an upgraded socket |
| Legacy.HandleFrame | src/net.ts:102-126 | a RangeError is thrown exactly when no frame can be read, and then nothing changes; otherwise the chunk becomes the frame's chunk, unmasked in place, and nothing is written |
| Legacy.UnmaskRegionTwice | src/net.ts:54-57 | unmasking the same region twice restores the chunk |
| Legacy.UnmaskRegionPointwise | src/net.ts:54-57 | a buffer XOR-ed byte by byte in the region is the unmasked region |
| Legacy.Unmask | src/net.ts:54-57 | `unmask` changes exactly the region of the chunk, XOR-ing byte i with `mask[(i - from) % 4]` |
| Legacy.ReadInPlace | src/net.ts:102-108 | the frame read in place is `ReadFrame` of the old chunk, and the chunk ends up with its payload unmasked; a throw leaves it unchanged |
| Legacy.LegacyConnection.constructor | src/net.ts:158-161 | a new socket is not upgraded, with an empty `prevPayloads`, no events and no writes |
| Legacy.LegacyConnection.HandleChunk | src/net.ts:68-130 | one `handleChunk` leaves the fields, the chunk's bytes and the outcome that `Handle` prescribes |
| Legacy.LegacyConnection.ReadAndDeliver | src/net.ts:102-126 | reads the frame in place and delivers it, or throws a RangeError and changes nothing |
| Legacy.LegacyConnection.DeliverFrame | src/net.ts:109-126 | a fragment is pushed; a final frame is joined to the fragments, the list is emptied, and the whole is emitted as text, as a Buffer, or not at all |
| Legacy.LegacyConnection.Send | src/net.ts:169-184 | `send` rejects before the upgrade without writing; otherwise it writes the server frame and settles by the write's outcome |
| Legacy.AcceptPreservesValid | src/net.ts:82-96 | the 101 answer keeps the invariant, appends the response to the writes, only appends events and upgrades exactly when it was upgraded or the write succeeds |
| Legacy.DeliverPreservesValid | src/net.ts:109-126 | delivering a frame keeps the invariant, writes nothing and appends at most one event |
| Legacy.HandlePreservesValid | src/net.ts:68-130 | the listener keeps the invariant; `upgraded` is never cleared; events and writes only grow; a call writes at most the 101 response |
| Legacy.RespondSuccessor | src/net.ts:79-126 | the same for a chunk and its parsed request |
| Legacy.NotUpgradedIgnored | src/net.ts:100 | before the upgrade a chunk that is not an upgrade request changes nothing and never throws |
| Legacy.KeylessUpgradeIgnored | src/net.ts:79-81 | any upgrade request without a non-empty `Sec-WebSocket-Key`, upgraded or not, changes nothing: no write, no event, the chunk untouched |
| Legacy.KeyedUpgradeAnswered | src/net.ts:79-97 | any upgrade request with key k, upgraded or not, gets exactly the 101 response with the digest of k + GUID and is not read as a frame; `upgraded` is set and the body emitted exactly when the write succeeds |
| Legacy.UpgradeRequestAccepted | src/net.ts:79-96 | a 4-line request (Upgrade second, key third) with a successful write is answered with the 101 response, upgrades the socket and emits the body, also on a socket already upgraded |
| Legacy.NoCrlfNotUpgradeRequest | src/net.ts:16-52 | a chunk without CR LF is never taken for an upgrade request |
| Legacy.ReadShortClientFrame | src/net.ts:102-108 | a masked client frame of at most 124 bytes is read with its FIN, opcode and payload, and left decoded in the chunk |
| Legacy.ShortClientMessage | src/net.ts:113-123 | such a final text or binary frame is emitted as sent |
| Legacy.MediumClientFrameMisread | src/net.ts:105-108 | a 16-bit length frame is read from offset 6: its first two bytes come from the mask and the length field |
| Legacy.ReadFromOffsetSix | src/net.ts:106-108 | the first two payload bytes read are bytes 6-7 XOR-ed with bytes 2-3 |
| Legacy.ReadMaskedFrame | src/net.ts:102-108 | a masked frame whose payload bytes all arrived is read with its payload unmasked from offset 6 |
| Legacy.MediumFrameLayout | src/net.ts:105 | the bytes of a 16-bit length frame as `getLength` sees them |
| Legacy.CollectFragments | src/net.ts:109-111 | frames without FIN are only pushed to `prevPayloads` |
| Legacy.FragmentedMessage | src/net.ts:109-126 | fragments and a final frame are joined and emitted for opcode 1 or 2 and lost otherwise; the list is emptied |
| Legacy.DeliverAllAppend | src/net.ts:109-126 | delivering two runs of frames is delivering one after the other |
| Legacy.SendWritesOneFrame | src/net.ts:169-184 | the older `send` writes one frame that reads back with FIN, the opcode and the payload |
| Legacy.SendStep | src/net.ts:169-184 | `send` changes only the writes: nothing before the upgrade, exactly the server frame of the payload after it; it resolves exactly when the socket is upgraded and the write succeeds |
| Packing.ComplementIsNot | src/utils/packing.ts:8 | `~v & 0xff` is the XOR of the byte with 0xff |
| Packing.Reverse | src/utils/packing.ts:9 | byte i of the reversed bytes is byte n-1-i |
| Packing.FlipTwice | src/utils/packing.ts:2 | complementing twice restores the bytes |
| Packing.ReverseTwice | src/utils/packing.ts:2 | reversing twice restores the bytes |
| Packing.FlipReverseCommute | src/utils/packing.ts:2 | complementing and reversing commute |
| Packing.PackData | src/utils/packing.ts:4-12 | the packed form has the length of the UTF-8 JSON text, byte i being 255 minus the text's byte n-1-i |
| Packing.UnwrapWrap | src/utils/packing.ts:1-12 | at byte level unpacking undoes packing and packing undoes unpacking |
| Packing.UnpackPack | src/utils/packing.ts:1-12 | `unpackData(packData(x))` is `JSON.parse(JSON.stringify(x))` when UTF-8 round-trips, and `x` when JSON does too |
| Packing.ReverseInPlace | src/utils/packing.ts:2 | `array.reverse()` leaves the array reversed |
| Packing.ComplementAll | src/utils/packing.ts:2 | `.map((v) => ~v & 0xff)` gives the complement of each byte |
| Packing.UnpackData | src/utils/packing.ts:1-2 | `unpackData` reverses its argument in place and returns the parse of the decoded complemented bytes |

## Left out

- Timeouts (`setTimeout`, the `timeout` listener that ends the socket): they are driven by a clock.
- The asynchrony of writes: a write's callback outcome is the `writeSucceeds` parameter and its effect is applied at once. Chunks that arrive before a callback runs are not modelled.
- Event listeners: `emit` appends to an event log. Listeners that call back into the socket are not modelled.
- SHA-1 with base64, UTF-8 encoding and decoding, and `JSON.stringify`/`JSON.parse` are function parameters. `stringify` is total and returns a string, so values for which `JSON.stringify` returns `undefined` (`undefined`, functions, symbols) or throws (a BigInt, a cycle) are not modelled.
- The bytes of the HTTP responses: they are logged as `Response` values, whose text is `Http.Render`.
- Packing.PackData: models only values that `JSON.stringify` turns into a string. For those, the `TextEncoder` and `Buffer.from` branches give the same UTF-8 bytes and are one function. When `JSON.stringify` returns `undefined`, the `TextEncoder` branch encodes empty bytes while `Buffer.from` throws a TypeError; that difference is not modelled.
- Number precision: `Number()` of a 64-bit length above 2^53 is rounded in the source. Here it stays exact. Either value lies beyond the end of any chunk, where `subarray` clamps.
- The header map is a map from names to values. JavaScript objects also inherit prototype properties; of those only the `__proto__` assignment is modelled, as a no-op.
- `createServer` and its option merging, the default `Proxy` export, `export * from "net"` and the socket's other methods: they are not part of this model. `allowHTTP` is a constructor argument.
- src/server.ts, src/client.ts, src/lib/env.ts, src/utils.ts and src/lib/logger.ts are not part of this model.
- Engine.SendWritesOneFrame: its read-back states only payloads of at most 125 bytes. Longer payloads are covered by Wire.ServerFrameLongPayload.
- Legacy.SendWritesOneFrame: its read-back states only payloads of at most 125 bytes. Longer payloads are covered by Wire.ServerFrameLongPayload.
