# Resumable, checksum-verified firmware transfer

This project models the transfer protocol of a small over-the-air firmware
system and proves properties of it. A distributor (`server.py`) holds a
firmware image. A node (`client.py`) downloads it with resume: it sends how
many bytes it already holds, receives a `checksum:size` metadata message,
acknowledges it with `ACK_METADATA`, appends the streamed bytes to its file,
and compares the file's SHA-256 hex digest with the declared one. A node also
serves its own copy to peers with the same exchange. In that case the peer
opens with `checksum:bytes` and must send `REQUEST_UPDATE` before any bytes
flow.

The model is layered like the program:

- `bytes.dfy` (`Bytes`): byte strings, and what a file object's `read(4096)`
  returns. `Blocks` is the sequence of blocks a read-until-empty
  loop obtains.
- `text.dfy` (`Text`): `str.split`, `str(n)` and `int(s)` for the control
  messages.
- `digest.dfy` (`Digest`): the `hashlib.sha256()` object as a class whose
  state is the bytes fed to it, the `hexdigest()` encoding, and
  `generate_checksum` as a read loop.
- `wire.dfy` (`Wire`): the protocol tokens and the `digest:size` message.
- `io.dfy` (`Io`): the connection as a class with four queues, and the local
  firmware file as a class. The inbound queues are the control messages the
  other end sends (each arriving whole) and the stream of non-empty chunks
  that successive receives return. The outbound queues are the messages and
  blocks this end sends. The other end closing is an exhausted queue.
- `transfer.dfy` (`Transfer`): the sender's seek-and-read loop (`SendFrom`)
  and the receiver's append loop (`ReceiveInto`). Each is proved against a
  function: `Blocks` for the sender and `Drain` for the receiver.
- `client.dfy` (`Client`), `server.dfy` (`Server`): the sessions. Each is an
  imperative method. Its `ensures` ties the new connection and file state to
  a specification function of the old state: `ReceiveSession`,
  `PeerSession` or `ServeSession`. The lemmas state what the source promises
  about those functions.
- `protocol.dfy` (`Protocol`): both ends together, with the stream re-split
  arbitrarily between the sender's blocks and the receiver's chunks.

SHA-256 itself belongs to `hashlib`, so every member that needs it takes it
as a parameter `hash` of type `HashFunction`
(`seq<byte> -> 32-byte digest`). The properties therefore hold for any hash
function. The one property that depends on SHA-256 being collision-free,
corruption detection, assumes only that the two contents in question do not
collide.

Three consequences of the code as written are proved explicitly:

- A chunk that crosses `file_size` is written whole, so the file can end
  longer than the declared size (client.py:54-55,
  `WholeChunkCanPassDeclaredSize`).
- `int()` accepts a negative offset (server.py:55). The distributor then sends
  its metadata and reads the acknowledgement, and only `f.seek` fails
  (server.py:73, `NegativeOffsetFailsAtSeek`).
- The peer listener expects `checksum:bytes` followed by `REQUEST_UPDATE`
  (client.py:76-85), but no code in the repository sends either message. The
  node's download sends a bare offset (client.py:43), which the peer listener
  refuses (`BareOffsetIsRefusedByPeer`).

## Model

| member | source | states |
|---|---|---|
| Bytes.Blocks | client.py:93-94 | the blocks a read-until-empty loop yields are non-empty, at most `n` bytes, all but the last exactly `n`, and join to exactly the bytes read; there are none when nothing is left |
| Bytes.Suffix | client.py:92 | after `f.seek(offset)` the readable bytes are those from `offset` on, and none when the offset is at or past the end (the same operation gives the control messages left after some receives) |
| Bytes.ReadAt | client.py:16 | `f.read(n)` at position `pos` gives at most `n` bytes, exactly the file's bytes from `pos` on, and nothing only at or past the end (or for `n == 0`) |
| Text.Split | client.py:45 | `str.split` always yields at least one field |
| Text.SplitCount | client.py:45 | a message is split into one more field than it has colons |
| Text.SplitTwoFields | client.py:45 | a two-field split is the first field, the colon, the second field, and neither field holds a colon |
| Text.SplitAtFirst | client.py:45 | the first field ends at the first colon |
| Text.SplitWithoutSeparator | client.py:45 | a string without a colon is a single field |
| Text.Decimal | client.py:43 | `str(received)` is a non-empty digit string without a leading zero |
| Text.ParseInt | server.py:55 | `int` succeeds exactly on a non-empty digit string, or a `+` or `-` followed by a non-empty digit string, and yields the digits' value, negated after `-` |
| Text.DecimalRoundTrip | server.py:55 | `int(str(n)) == n`: the distributor reads back exactly the offset the node sent |
| Digest.ToHex | client.py:18 | `hexdigest()` has two characters per digest byte and never contains `:` |
| Digest.ToHexInjective | client.py:57 | different digests have different hex strings, so comparing hex strings compares digests |
| Digest.Sha256.constructor | client.py:14 | a fresh `hashlib.sha256()` has been fed nothing |
| Digest.Sha256.Update | client.py:17 | `update` feeds the chunk after everything fed before |
| Digest.Sha256.HexDigest | client.py:18 | `hexdigest()` is 64 characters with no colon |
| Digest.ChecksumByReads | server.py:13-17 | feeding the file in reads of any positive size gives the hash of the whole content: every byte is fed once, in order |
| Digest.GenerateChecksum | client.py:12-18 | `generate_checksum` is the hex digest of the whole file: 64 characters, no colon |
| Wire.ParseMetadata | client.py:45-46 | succeeds exactly when the message has one colon and the text after it is an integer, and then gives the text before the colon as digest and that integer as size; with one colon and a non-integer tail it fails with that tail; otherwise it fails with the field count |
| Wire.FormatMetadata | server.py:63 | the metadata message built from a colon-free checksum has exactly one colon, and splits into the checksum and the decimal size |
| Wire.MetadataRoundTrip | server.py:63 | parsing the metadata message recovers exactly the digest and size when the digest has no colon |
| Io.Connection.RecvControl | client.py:44 | a control receive yields the next whole message, or `""` once the other end has closed |
| Io.Connection.RecvData | client.py:51 | a streaming receive yields the next chunk, or the empty chunk at end-of-stream, and nothing else changes |
| Io.Connection.SendControl | client.py:43 | `sendall` of a control message appends it to what was sent |
| Io.Connection.SendData | server.py:75 | `sendall` of a block appends it to the bytes sent |
| Io.Nth | client.py:44 | the `i`-th control receive yields the `i`-th message, or `""` once the other end has sent fewer |
| Io.FirmwareFile.Open | client.py:49 | `'ab'` keeps the content, `'wb'` empties it, and both leave the file existing |
| Io.FirmwareFile.Write | client.py:54 | `f.write(chunk)` appends the chunk whole |
| Transfer.SendFrom | server.py:72-75 | the sender emits exactly `Blocks(file[offset..])`: the suffix from the offset in order, at most 4096 bytes per block, nothing when the offset is at or past the end, and no other channel changes |
| Transfer.Drain | client.py:50-55 | the loop appends whole chunks in order (`Flatten` of the chunks taken), and stops only at end-of-stream or once the count reaches `file_size`; it takes nothing when the count is already there |
| Transfer.DrainStep | client.py:51-55 | one turn of the loop: with the count short of the size and a chunk available, the chunk is appended and the rest of the loop continues from the new count |
| Transfer.DrainReadsOnlyWhileShort | client.py:50-53 | before every chunk the loop takes, the count is still below `file_size`, so no chunk is read after the count has reached it |
| Transfer.DrainTakesShortStream | client.py:50-55 | a stream that does not carry the count past `file_size` is taken whole, however it is split into chunks |
| Transfer.WholeChunkCanPassDeclaredSize | client.py:50-55 | whenever the first chunk carries the count from below `file_size` to past it, that chunk is written whole and the loop stops, so the file ends longer than declared |
| Transfer.ReceiveInto | client.py:50-55 | the loop keeps `received == len(file)` at every turn, and leaves the opening content followed by `Drain`'s bytes, with the taken chunks gone from the connection |
| Client.ResumeOffset | client.py:42 | the offset is the local file's size, and 0 when there is no file |
| Client.OpenModeFor | client.py:49 | the file is opened for appending exactly when the offset is positive; a zero offset truncates |
| Client.ReceiveSession | client.py:42-60 | a download sends its offset first, then `ACK_METADATA` exactly when the metadata parses; it takes at most the stream's chunks; an aborted download leaves the file as it was, any other leaves a file |
| Client.InitialOffset | client.py:42 | the resume offset is the local file's size, 0 when the file does not exist |
| Client.ReceiveFirmwareFromServer | client.py:37-62 | the download's messages sent, final file, chunks taken and outcome are those of `ReceiveSession` on the old file and connection |
| Client.MalformedMetadataAborts | client.py:44-47 | no colon, several colons or a bad size end the session in the `except` branch, with only the offset sent, no `ACK_METADATA`, the file untouched and nothing read |
| Client.DownloadAppendsToHeldBytes | client.py:49-60 | after `ACK_METADATA` the file is the held bytes plus the chunks taken: exactly the streamed bytes at offset 0, the old content plus them otherwise; success iff the file's hex digest equals the declared one; on a mismatch the file is kept |
| Client.NothingReadWhenComplete | client.py:50 | with the offset at or past the declared size nothing is read and the untouched file is verified |
| Client.ExactDeliveryReachesDeclaredSize | client.py:50-55 | when exactly `file_size - offset` bytes arrive, in any chunking, all are taken and the file has the declared size |
| Client.PeerSession | client.py:76-86 | a peer connection reads one or two messages and replies once exactly when it reads two, which happens exactly when the peer's message parses and the node has a file; blocks are streamed only when served, and serving needs a file and `REQUEST_UPDATE` |
| Client.SendFirmwareToPeer | client.py:89-95 | without a file or with a negative offset nothing is sent; otherwise exactly `Blocks(file[received..])` |
| Client.ServePeer | client.py:74-86 | one peer connection reads, sends and streams what `PeerSession` says |
| Client.PeerStreamsOnlyOnRequest | client.py:80-86 | a well-formed peer message always gets the node's own `checksum:size` back, which parses to the node's digest and size; bytes are streamed only after `REQUEST_UPDATE`, and are then the file from the peer's count on |
| Client.PeerChecksumIsIgnored | client.py:76-78 | the peer's checksum is parsed but never used: two messages differing only in it give the same session |
| Server.ServeSession | server.py:55-75 | a session reads one or two messages and sends one metadata message exactly when it reads two, which happens exactly when the offset parses; blocks are streamed only when served, and serving needs `ACK_METADATA` and a non-negative offset |
| Server.HandleClient | server.py:49-77 | the handler's messages, blocks and outcome are those of `ServeSession` on the image and the node's messages |
| Server.MalformedOffsetSendsNothing | server.py:55 | an offset `int` refuses ends the handler before any metadata or byte is sent |
| Server.NegativeOffsetFailsAtSeek | server.py:55-73 | a negative offset still gets the metadata and has its acknowledgement read; the seek then fails and no byte is sent |
| Server.MetadataDeclaresImage | server.py:59-63 | exactly one metadata message is sent, and it parses to the image's own hex digest and size |
| Server.StreamIsRequestedSuffix | server.py:66-75 | no byte is sent unless the acknowledgement equals `ACK_METADATA`; a served stream is the image from the offset on, in blocks of at most 4096 bytes, empty when the offset is at or past the size |
| Protocol.ResumeFromCorrectPrefix | server.py:72-75 | a node holding `image[..k]` for any `0 <= k <= size`, receiving the distributor's stream in any chunking, ends with a file identical to the image that verifies |
| Protocol.InterruptedThenResumed | client.py:42-57 | a session cut off after `k` bytes leaves exactly `image[..k]`; a second session asks for offset `k`, receives exactly the distributor's stream from `k`, and ends with the full, verified image, the same file and outcome as one uninterrupted session over both streams |
| Protocol.UninterruptedSession | client.py:42-57 | one session from nothing over a stream carrying the whole image, split into any non-empty chunks, ends with the image, verified |
| Protocol.CorruptPrefixIsDetected | client.py:57-60 | a node resuming from a wrong prefix ends with a file that is not the image and keeps it; it reports success exactly when SHA-256 collides on the two contents, and a mismatch otherwise |
| Protocol.OversizedLocalFileIsUntouched | client.py:49-57 | a node holding at least as many bytes as the image is sent nothing, keeps its file, and verifies exactly when the two contents hash alike |
| Protocol.PeerServesLikeDistributor | client.py:80-95 | a node serving a peer that reports `k` bytes sends the same metadata and the same blocks as the distributor for offset `k` |
| Protocol.BareOffsetIsRefusedByPeer | client.py:76-77 | a download's opening offset message, sent to a peer listener, fails the two-field unpack before anything is sent back |

server.py:11-17 is the same `generate_checksum` as client.py:12-18 and is
modelled by the same members.

## Left out

- Socket lifecycle: `connect`, `bind`, `listen`, `accept` and the accept loops
  of `start_server` and `start_p2p_listening` are not modelled. Each session
  runs on a connection that is already open. Connection errors are not
  modelled. A peer that closes early is an exhausted queue.
- An exception in one peer session propagates out of `start_p2p_listening`'s
  `while True` loop, because nothing in it catches. A malformed peer message,
  a missing local file or a negative count therefore ends the node's peer
  listener. Only the session's outcome (`BadPeerMessage`, `NoLocalFirmware`,
  `PeerSeekFailed`) is modelled, not the end of the loop.
- Message framing: each `recv(1024)` is assumed to deliver one whole control
  message, and control messages and stream bytes travel in separate queues.
  Partial or coalesced reads are not modelled.
- Io.Connection.RecvData: the 4096-byte bound of `recv(4096)` is not imposed
  on chunks. The receive-side results hold for chunks of any size.
- Text.ParseInt: Python's `int()` also accepts surrounding whitespace,
  underscores between digits and non-ASCII digits. The model refuses these.
- Control messages are strings. The `.encode()`/`.decode()` step, including
  UTF-8 decoding errors on non-ASCII bytes, is not modelled.
- Threads (`threading.Thread` in both files) and several sessions writing one
  file at a time are concurrency and are not modelled.
- The notification path (`notify_clients`, `listen_for_server_updates`) only
  starts a session on a literal string, and is not modelled.
- `firmware.py` writes random bytes to a file. That is I/O and randomness,
  with nothing to state.
- SHA-256 itself is a parameter: the whole hash function, from bytes to a
  32-byte digest, so no property depends on its internals. The 32-byte digest
  length is kept.
- Server.ServeSession: `f.seek` also raises for an offset too large for the
  platform's file offset type (2^63 and above for CPython on 64-bit Linux) or
  beyond the file system's maximum file size. The model treats every
  non-negative offset as a successful seek, so such an offset is `Served`
  with an empty stream instead of failing like a negative one.
- Client.PeerSession: the same `f.seek` limit; an oversized count is
  `PeerServed` with an empty stream, where the code raises and ends the peer
  listener.
- Client.SendFirmwareToPeer: the same `f.seek` limit; an oversized
  `received` gives `ok == true` and no blocks, where the code raises.
- Server.HandleClient: the distributor's image is assumed to exist, as
  `start_server` checks at startup (server.py:35-37). It is also assumed not
  to change during a session.
- `print` logging is not modelled.
