# waves-node-listener relay: frame reassembly and session ownership

This project models the core of the relay in `server/index.js`: a
socket.io session that opens a TCP connection to a Waves node, relays the
node's handshake, reassembles the node's length-prefixed protocol frames
from arbitrarily chunked `data` events, answers `getPeers` requests with an
empty peer list, and destroys the connection on disconnect.

Files, leaf first:

- `base.dfy` (`Base`): the `byte` type, `Option`, and `Flatten`, which joins a list of chunks or frames into one byte stream for the lemmas about runs of events (the `Buffer.concat` of line 38 is the plain `s.buf + chunk` in `Step`).
- `bigendian.dfy` (`BigEndian`): `Buffer.readInt32BE`, which reads the 4-byte length prefix as a signed two's complement number, and its inverse.
- `reassembly.dfy` (`Reassembly`): the `data` handler of lines 36-43 as a pure step function `Step` over the closure state (`buffer`, `targetLength`), the `Reassembler` class whose `OnData` method changes those two fields in place and is proved equal to `Step`, and `Feed`, a run of data events.
- `framestream.dfy` (`FrameStream`): well-formed frames (`N` as a big-endian 32-bit number, then `N` bytes), the condition under which the handler returns them intact ("paced" chunking) with its round-trip proof, and three lemmas that show what happens outside it.
- `address.dfy` (`Address`): `data.split(':')` and the `[host, port]` destructuring of line 17.
- `bridge.dfy` (`Bridge`): the session: the `client` variable, the handshake-first phase, the reply decision and the disconnect handlers, with every socket call recorded in an effect log.
- `scenario.dfy` (`Scenario`): a session driven through its handlers: handshake, then two frames in one chunk.

What the code does, as the model states it:

- The prefix is read only when the buffer is empty when a chunk arrives (line 37) and after a frame is cut off, if at least four bytes remain (line 43). When 1-3 bytes remain, `targetLength` keeps its previous value, which is the size of the frame just emitted only when that value is not negative (a negative target makes `Buffer.slice` cut `|buffer| + target` bytes instead).
- At most one frame is emitted per `data` event: the handler has no loop.
- `readInt32BE` is signed. A prefix with its top bit set gives a target below 4, and `Buffer.slice` then counts a negative offset back from the end. Both are modelled (`ReadInt32BE`, `SliceOffset`).
- A chunk shorter than 4 bytes that arrives at an empty buffer makes `readInt32BE` throw before anything changes. `Step` returns `Threw` for it.
- `node-connect` does not check the address itself. When `net.createConnection` throws at once (no port, or a port `net` rejects), `client` keeps its previous value and no connection opens; nothing catches that throw, so in Node it is an uncaught exception that ends the process, which the model does not follow. Otherwise the new connection replaces `client` and the previous connection is not destroyed. `disconnect` and `node-disconnect` destroy `client` when it is set and never clear it.

Some consequences of this code, each stated by a lemma or contract:

- A chunk that holds two whole frames relays only the first; the second waits for the next data event (`SecondFrameWaits`, `Scenario.TwoFramesInOneChunk`).
- A remainder of 1-3 bytes leaves the target stale, so the next frame is cut at the previous frame's size (`StaleTargetCutsShort`). The cut happens to be right when the two frames have the same size (`StaleTargetOfEqualSize`), so paced chunking is sufficient for a correct round trip but not necessary.
- A prefix with its top bit set reads as a negative length and releases a frame at once (`NegativePrefixEmitsAtOnce`).
- `""`, `"hostonly"` and `":1234"` are split without complaint (`ParseEndpoint`). The first two have no port, so `net.createConnection` throws; `NodeConnect` reports `threw` and changes nothing, while in Node the uncaught exception ends the process and every session with it (not modelled). For `":1234"`, whether a connection opens depends on the port check inside `net`; if it opens, `net` connects to `localhost`, while `PeerLink.endpoint` records the host `""` as split.
- A second `node-connect` with an accepted port leaves the first connection live (`NodeConnect`).

## Model

| member | source | states |
|---|---|---|
| BigEndian.ReadInt32BE | server/index.js:37 | the prefix is a signed 32-bit number; it is negative exactly when the first byte's top bit is set, and it agrees with the unsigned reading modulo 2^32 |
| BigEndian.ReadWriteInt32BE | server/index.js:37 | reading the four bytes written for any 32-bit number gives that number back |
| BigEndian.WriteReadInt32BE | server/index.js:37 | writing the number read from four bytes gives those four bytes back, so the prefix reading is one-to-one |
| BigEndian.ReadInt32BEPrefix | server/index.js:37 | the reading depends only on the four leading bytes |
| Reassembly.SliceOffset | server/index.js:41-42 | Buffer.slice's offset: the offset itself when it lies inside the buffer, the length when it lies past the end, counted back from the end when negative, and 0 when it reaches back past the start |
| Reassembly.Step | server/index.js:36-43 | one data event throws exactly when the buffer is empty and the chunk is shorter than 4 bytes; otherwise the emitted frame followed by the new buffer is exactly the old buffer followed by the chunk |
| Reassembly.StepReadsPrefix | server/index.js:37 | on an empty buffer a chunk of at least 4 bytes never throws; the target becomes the signed prefix plus 4, and no frame is emitted while the chunk is shorter than that |
| Reassembly.StepWaits | server/index.js:37-39 | when the bytes are fewer than the target, no frame is emitted, the buffer becomes old buffer plus chunk, and the target is the one line 37 left |
| Reassembly.StepEmits | server/index.js:38-43 | when the bytes reach the target, one frame is emitted: for a non-negative target it is the first target bytes and the buffer keeps exactly the rest; the target is re-read from the rest if and only if at least 4 bytes remain, and otherwise stays stale |
| Reassembly.Reassembler.constructor | server/index.js:33-34 | reassembly starts with an empty buffer and a target of 0 |
| Reassembly.Reassembler.OnData | server/index.js:36-43 | the in-place handler changes `buf` and `targetLength` and returns the frame exactly as Step does; when it throws, nothing has changed |
| Reassembly.Feed | server/index.js:36-57 | a run of data events emits at most one frame per event |
| Reassembly.FeedConserves | server/index.js:38-42 | over any run of data events no byte is lost or duplicated: the emitted frames followed by the final buffer are the start buffer followed by all chunks |
| FrameStream.Encode | server/index.js:37 | the frame for a payload is well-formed (its prefix plus 4 is its size) and carries the payload after the prefix |
| FrameStream.EncodeOnto | server/index.js:37 | every well-formed frame is the encoding of the bytes after its prefix |
| FrameStream.AlignedTarget | server/index.js:37 | while the buffer holds the start of the current frame, the target in force is that frame's size |
| FrameStream.PacedWait | server/index.js:38-39 | a paced event that completes no frame emits nothing and keeps the buffer aligned with the frame stream |
| FrameStream.PacedEmit | server/index.js:38-43 | a paced event that completes a frame emits exactly that frame and leaves the buffer aligned with the following frames |
| FrameStream.PacedRoundTrip | server/index.js:36-45 | under paced chunking (no chunk completes two frames, no remainder of 1-3 bytes, no short chunk at an empty buffer) the frames fed in come out in order, byte for byte, and the buffer ends empty |
| FrameStream.FreshRoundTrip | server/index.js:33-45 | the same from the state the handshake leaves |
| FrameStream.OneFramePerChunkIsPaced | server/index.js:36-43 | a peer that sends exactly one frame per data event is always paced |
| FrameStream.SecondFrameWaits | server/index.js:36-43 | a chunk holding two whole frames emits only the first; the second stays buffered, its target already read |
| FrameStream.StaleTarget | server/index.js:43 | when a frame completes with 2 bytes of the next behind it, the target is not re-read and the next frame is cut at the previous frame's size, the rest staying buffered |
| FrameStream.StaleTargetCutsShort | server/index.js:43 | so a longer next frame comes out truncated |
| FrameStream.StaleTargetOfEqualSize | server/index.js:43 | the same chunking, which is not paced, returns both frames intact when they have the same size: pacing is not necessary |
| FrameStream.NegativePrefixEmitsAtOnce | server/index.js:37-42 | a prefix with its top bit set makes the handler emit a frame on that same event, shorter than the chunk, with bytes left over |
| Address.Split | server/index.js:17 | `split(':')` gives at least one piece and no piece contains the separator |
| Address.JoinSplit | server/index.js:17 | joining the pieces with the separator gives the text back |
| Address.SplitJoin | server/index.js:17 | pieces free of the separator come back out of splitting their join |
| Address.SplitSingle | server/index.js:17 | the text splits into a single piece exactly when it has no separator |
| Address.ParseEndpoint | server/index.js:17 | the host is the text before the first colon (all of it if none), the port is the text between the first colon and the next colon or the end, and is missing exactly when there is no colon; nothing is validated |
| Bridge.Reply | server/index.js:46-55 | a reply is written if and only if the frame's content id is `getPeers`, and it is the empty peer list |
| Bridge.FrameEffects | server/index.js:44-55 | each emitted frame is relayed to the session exactly once, first; a second effect, a write of the empty peer list to `client`, follows if and only if the frame is `getPeers` |
| Bridge.Live | server/index.js:74-80 | every connection counted live was opened by a logged connect |
| Bridge.Session.constructor | server/index.js:13-15 | a new session has no client and no live connection, and has sent its greeting |
| Bridge.PeerLink.constructor | server/index.js:18 | a new connection records the host and port it was opened with |
| Bridge.Session.NodeConnect | server/index.js:16-18 | `net.createConnection` throws exactly when the port is missing or rejected, and then nothing changes; otherwise a new connection to the split address becomes `client` and awaits its handshake, and the previous connection is not destroyed and stays live |
| Bridge.Session.OnReady | server/index.js:20-28 | the handshake and then a `getPeers` request are written to `client` |
| Bridge.Session.OnPeerData | server/index.js:30-57 | the first data event is relayed as the handshake, bypasses reassembly and leaves a fresh reassembler; every later one goes through the reassembler and each frame it emits is relayed once and answered as Reply says; a throw changes nothing |
| Bridge.Session.DestroyClient | server/index.js:74-80 | both disconnect handlers destroy `client` only when it is set and are no-ops otherwise; `client` is not cleared, so repeating them leaves the live set as it was |
| Scenario.TwoFramesInOneChunk | server/index.js:30-57 | after the handshake, a chunk with two frames relays only the first; the second waits in the reassembler |

## Left out

- The socket.io server, its CORS settings and `process.env.PORT` (lines 6-11): configuration and I/O.
- `net.createConnection`, `client.write` and `client.destroy` as real socket operations: they are recorded as `Connect`, `Write` and `Destroy` effects in the session's log.
- Bridge.Session.NodeConnect: which port strings `net` accepts is not modelled; it is the parameter `portAccepted`, because that check lives in Node's `net` module. A missing port always throws. Such a throw is reported as `threw` with nothing changed; the exit of the Node process that follows this uncaught exception is not modelled. `net` replaces an empty host with `localhost`; `endpoint` keeps the host as split. A host that later fails to resolve or connect surfaces through the `error` and `close` relays, which are left out below.
- The `waves-proto-js` codec (`Handshake`, `Message`, `Peers`, `toBuffer`, `fromBuffer`, `contentIdNames`): a foreign library. Decoding is a function parameter that yields a `ContentId`; encoded messages are the `OutMsg` tags.
- Bridge.Session.OnPeerData: does not model a decode failure, which the codec would throw after the reassembler state has already changed.
- Bridge.Session.OnPeerData: a throw is reported as `threw` with nothing changed. The exit of the Node process that follows an uncaught exception is not modelled.
- `util.inspect` and `Buffer.inspect` formatting of relayed text: relays carry the content id and the raw bytes instead.
- The `error`, `timeout` and `close` relays (lines 60-71), including the timeout handler's destroy of `client`: they forward fixed strings, and the timeout comes from the transport's own timer.
- Events of a connection that a later `node-connect` replaced: its handlers stay registered and keep reading the shared `client` variable, so its `getPeers` replies, and the reassembler its late handshake would set up, go to the newer connection. The model follows the current `client` only, because those interleavings depend on Node's event-loop ordering.
- A `node-connect` payload that is not a string (`split` would throw).
- Node's maximum buffer size: buffers are unbounded sequences.
