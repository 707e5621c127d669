# NightDriver-Pi receiver, modelled in Dafny

NightDriver-Pi drives an LED matrix on a Raspberry Pi from frames that a
NightDriver server streams to it over TCP. Each frame carries a timestamp
saying when it must be shown. The receiver reads packets from the
connection, standard or zlib-compressed, and parses them into timestamped
frames (`LEDBuffer`). It queues the frames in a bounded deque
(`LEDBufferManager`) and answers every accepted packet with a 64-byte
`SocketResponse`. A draw loop pops frames once they are due and paints the
last due one onto the matrix.

This project models that core and proves properties of the model:

- `globals.dfy` (`Globals`): the little-endian readers
  `WORDFromMemory`, `DWORDFromMemory` and `ULONGFromMemory`, with their
  inverse.
- `ledbuffer.dfy` (`LedBuffer`): the frame, `CreateFromWire`, and
  `LEDBufferManager`. The manager is a class whose `buffers` sequence is
  updated in place by `PushNewBuffer` and `PopOldestBuffer`. Pure queue
  functions specify it (`Pushed`, `PushAll`, `Newest`).
- `packet.dfy` (`Packet`): the constants, the `SocketResponse` layout,
  what `ProcessIncomingData` does with a payload (`DispatchPayload`), and
  what one turn of the connection loop does with the bytes the peer sends
  (`PacketSpec`). `ConnectionSpec` runs turns until one fails.
- `socket.dfy` (`Socket`): the connected socket as the server meets it
  through `read()` and `write()`. A script of read events covers data,
  EINTR, the peer closing, and errors or timeouts.
- `socketserver.dfy` (`SocketServer`): the server class with its two
  `MAXIMUM_PACKET_SIZE` byte arrays and `_cbReceived`.
  - It has `ResetReadBuffer`, `ReadUntilNBytesReceived` (with the EINTR
    retry), `ProcessIncomingData` and `DecompressBuffer`.
  - It has the per-packet body of `ProcessIncomingConnectionsLoop`, split
    along its compressed and standard branches, and the loop itself.
  - Each method is proved against the pure definitions of `Packet`.
- `matrixdraw.dfy` (`MatrixDraw`): `DrawFrame`'s nested column and row
  loops over a two-dimensional canvas, and the inner drain loop of
  `RunDrawLoop`.

Modelling decisions:

- Times are integers in microseconds, and the clock is a parameter `now`.
  The timestamp of a frame is `seconds * 1000000 + micros`. The C++ value
  `MAXDOUBLE` for an empty queue becomes `MaxAge`, which exceeds every age
  a queued frame can have.
- A C++ exception is a `Failure` result. `CreateFromWire`'s two
  `LEDBufferException`s become `WireError`s, and `DrawFrame`'s
  `runtime_error` becomes `DrawError`.
- `ProcessIncomingData` returns a `Dispatch` instead of a `bool`:
  - `Push(frame)` for a frame that was queued;
  - `Ignore` for a packet that is not pixel data;
  - `ChannelMismatch`, the source's `false`;
  - `Throw`, the exception.

  The C++ function reaches its closing brace without a `return` both after
  pushing a frame and for other commands (socketserver.h:183-185). The
  model treats both as `true`, which is what the caller's "success" path
  assumes.
- A pixel packet for another channel makes `ProcessIncomingData` return
  `false`. The loop then `break`s and gives up the connection
  (socketserver.cpp:109-113 and 148-152). The model follows the code: such
  a packet ends the connection, although the message printed there
  ("Channel mismatch, not intended for us", socketserver.h:180) reads as
  if only the packet were skipped.
- An exception from `CreateFromWire` is not caught inside
  `ProcessIncomingConnectionsLoop`. It leaves the loop without closing the
  socket or clearing the read buffer, so the model returns `Failure` and
  leaves the buffer as it was.
- Zlib's raw inflate is a function parameter `inflate` of type `Inflate`:
  the bytes a complete DEFLATE stream expands to, or `None`.

## Model

| member | source | states |
|---|---|---|
| Globals.WordFromMemory | globals.h:42-46 | the result is byte 0 plus 256 times byte 1 |
| Globals.DWordFromMemory | globals.h:34-40 | the result is the four bytes weighted 1, 2^8, 2^16, 2^24 |
| Globals.ULongFromMemory | globals.h:22-32 | the result is the eight bytes weighted by successive powers of 2^8 |
| Globals.DecodeEncode | globals.h:22-46 | the n little-endian bytes of a value below 256^n read back as that value |
| Globals.EncodeDecode | globals.h:22-46 | reading bytes as a little-endian number and writing it back gives the same bytes |
| Globals.ReadersRoundTrip | globals.h:22-46 | each reader gives back the 16-, 32- or 64-bit value whose bytes were written, whatever follows them |
| Globals.ReadersUsePrefixOnly | globals.h:22-46 | each reader depends only on its first 2, 4 or 8 bytes |
| Globals.DWordFromWords | globals.h:34-46 | a DWORD is the low WORD plus 65536 times the high WORD |
| Globals.LittleEndianSplit | globals.h:22-46 | the number of a concatenation is that of the first part plus 256^len times that of the second |
| LedBuffer.CreateFromWire | ledbuffer.h:95-119 | fewer than 24 bytes throws "not enough data", exactly then; fewer than 24 + 3 * count bytes throws "size mismatch", exactly then; otherwise the frame has `count` pixels taken three bytes each from offset 24, and the seconds and microseconds from offsets 8 and 16 |
| LedBuffer.CreateFromWireRoundTrip | ledbuffer.h:95-119 | parsing an encoded packet gives back the encoded frame, for any command, channel and trailing bytes |
| LedBuffer.CreateFromWireIgnoresCommandChannelAndTail | ledbuffer.h:106-118 | two payloads that agree from byte 4 up to the announced length parse to the same result |
| LedBuffer.EncodedHeader | ledbuffer.h:106-112 | the command, channel, count, seconds and microseconds of an encoded header read back as written |
| LedBuffer.Timestamp | ledbuffer.h:146 | with microseconds below one second, the due time splits back into the frame's seconds and microseconds |
| LedBuffer.Pushed | ledbuffer.h:195-205 | a push never takes the queue beyond its capacity, and the pushed frame is the newest one |
| LedBuffer.PushedBounded | ledbuffer.h:195-205 | a push never exceeds the capacity; a full queue loses exactly its front, and the new frame goes to the back |
| LedBuffer.PushAllKeepsNewest | ledbuffer.h:195-205 | pushing frames one by one leaves the last `capacity` of the old contents followed by the pushed frames, in arrival order |
| LedBuffer.LastPushedFramesKept | ledbuffer.h:195-205 | from an empty queue, after k pushes the queue holds the last min(k, capacity) frames in the order they arrived |
| LedBuffer.LedBufferManager.constructor | ledbuffer.h:135-137 | a new manager is empty with the given capacity |
| LedBuffer.LedBufferManager.Capacity | ledbuffer.h:163-166 | a valid manager's capacity is at least one frame and bounds the number of frames queued |
| LedBuffer.LedBufferManager.Size | ledbuffer.h:168-171 | a valid queue never holds more than its capacity |
| LedBuffer.LedBufferManager.AgeOfOldestBuffer | ledbuffer.h:139-149 | the age is the sentinel exactly when the queue is empty, and otherwise the front frame's due time minus the clock; a non-positive age implies a queued frame |
| LedBuffer.LedBufferManager.AgeOfNewestBuffer | ledbuffer.h:151-161 | the same for the back frame |
| LedBuffer.LedBufferManager.PopOldestBuffer | ledbuffer.h:178-189 | an empty queue gives nothing and stays empty; otherwise the front frame is returned and removed |
| LedBuffer.LedBufferManager.PushNewBuffer | ledbuffer.h:195-205 | the queue becomes `Pushed` of the old one, so the capacity invariant is kept |
| Packet.MaximumPacketSize | socketserver.h:51 | the buffers always hold at least one standard header |
| Packet.SocketResponseIs64Bytes | socketserver.h:59-82 | with each field on an offset aligned to its width, the reply occupies 64 bytes, the plain sum of its field widths, so no padding is inserted |
| Packet.DispatchPayload | socketserver.h:170-185 | a packet is ignored exactly when its command is not pixel data, and refused exactly when it is pixel data on a nonzero even channel, before any parse; otherwise it is pushed exactly when `CreateFromWire` of the first `length` bytes succeeds, as that frame, and throws that call's error otherwise; a pushed frame's header and pixels lie within the first `length` bytes |
| Packet.DispatchUsesPrefix | socketserver.h:170-185 | ProcessIncomingData depends only on the first `length` bytes once they cover command and channel |
| Packet.DispatchEncodedPacket | socketserver.h:170-185 | an encoded pixel packet pushes exactly its frame unless its channel is nonzero and even, which refuses it; any other command pushes nothing |
| Packet.PixelPacketIsNotCompressed | socketserver.cpp:80-121 | a pixel packet's header never matches the compressed magic |
| Packet.PacketSpec | socketserver.cpp:68-165 | fewer than 24 bytes from the peer end the connection at the header read; an accepted packet carries the compressed magic or the pixel command, consumed at least 24 bytes, no more than the peer sent, and no more than the buffer holds |
| Packet.StandardSpec | socketserver.cpp:118-165 | an accepted standard packet has the pixel command and consumes exactly 24 + 3 * count bytes, all received and within the buffer; a frame it pushes has exactly `count` pixels |
| Packet.CompressedSpec | socketserver.cpp:81-117 | an accepted compressed packet announced an expanded size that fits the buffer, consumed max(24, 16 + compressed size) bytes, all received and within the buffer, and its compressed bytes inflated to exactly the announced size |
| Packet.CompressedNeedAsWritten | socketserver.cpp:94 | the 32-bit count equals 16 + compressed size exactly when the compressed size is below 2^32 - 16, and otherwise is that sum minus 2^32 |
| Packet.CompressedInputInBounds | socketserver.cpp:83-103 | with the byte count taken without wrap-around, the compressed input lies within the bytes received and within the buffer |
| Packet.CompressedNeedWraps | socketserver.cpp:94 | as written, a compressed size of 0xFFFFFFF0 makes the count wrap to 0, below the 24 bytes already read, although the true count exceeds the buffer |
| Packet.StandardPacketRoundTrip | socketserver.cpp:118-158 | a standard pixel packet that fits is accepted, consumes exactly its bytes and pushes the encoded frame; one for another channel ends the connection |
| Packet.CompressedHeaderReadsBack | socketserver.cpp:80-85 | the magic, compressed size and expanded size of an encoded compressed header read back as written |
| Packet.CompressedPacketDelivered | socketserver.cpp:81-116 | a compressed packet whose stream inflates to the announced size hands the inflated bytes, over the old output buffer, to ProcessIncomingData |
| Packet.CompressedPacketRoundTrip | socketserver.cpp:81-158 | a compressed packet wrapping a standard packet's DEFLATE stream yields the same frame as sending the packet itself |
| Packet.ConnectionSpec | socketserver.cpp:66-193 | a connection never ends on an accepted packet, pushes at most one frame per answered packet, and answers at most one packet per 24 bytes sent |
| Packet.StreamRoundTrip | socketserver.cpp:66-193 | a peer sending standard pixel packets for this receiver and closing has every frame pushed in order and every packet answered, and the connection ends on the failed header read |
| Socket.Connection.Read | socketserver.h:217 | read() stores the next bytes of the stream and advances it by as many; EINTR changes neither; 0 or -1 otherwise means the stream has ended |
| Socket.Connection.ReadRetrying | socketserver.h:214-218 | retried while interrupted, a read stores and consumes the next bytes of the stream, or reports that none remain; nothing outside the bytes read changes |
| Socket.Connection.Write | socketserver.cpp:190-191 | the reply is appended to those sent |
| SocketServer.ResponseFor | socketserver.cpp:175-187 | the reply carries the clock, the queue size truncated to 32 bits, and the empty-queue sentinel as oldest age exactly when the queue is empty |
| SocketServer.ResponseAnnouncesItsSize | socketserver.cpp:176 | the reply's size field is the laid-out size of SocketResponse |
| SocketServer.SocketServer.constructor | socketserver.h:102-110 | both buffers are MAXIMUM_PACKET_SIZE long, distinct, new and all zero, and nothing has been received |
| SocketServer.SocketServer.ResetReadBuffer | socketserver.h:187-191 | the received count is 0 and the whole read buffer is zero |
| SocketServer.SocketServer.ReadUntilNBytesReceived | socketserver.h:197-233 | when enough is held it succeeds without reading; a need beyond the buffer fails without reading; otherwise it succeeds exactly when the stream holds the missing bytes, appends the stream's next bytes (all that came before the end, on failure), keeps earlier bytes and advances the stream by as many |
| SocketServer.SocketServer.ProcessIncomingData | socketserver.h:170-185 | the outcome is `DispatchPayload` of the buffer, and the queue gains the frame exactly on a push |
| SocketServer.SocketServer.DecompressBuffer | socketserver.h:246-284 | it succeeds exactly when the input inflates to the expected size; the inflated bytes then fill the front of the output and the rest is untouched; on failure the output is unchanged |
| SocketServer.SocketServer.ProcessPacket | socketserver.cpp:68-192 | the turn's outcome is `PacketSpec` of the stream and output buffer; when accepted the read buffer is reset, the stream advanced by the bytes consumed, the output buffer is `OutputAfter`, the frame queued and one reply sent; otherwise queue and replies are unchanged |
| SocketServer.SocketServer.ReceiveCompressed | socketserver.cpp:81-117 | the compressed branch's outcome is `CompressedSpec`, with the inflated bytes left in the output buffer when accepted |
| SocketServer.SocketServer.InflateCompressedPacket | socketserver.cpp:83-107 | each failed check returns the drop reason `CompressedSpec` gives; on success the compressed bytes received inflate to the announced size, now at the front of the output buffer |
| SocketServer.SocketServer.ReadCompressedBytes | socketserver.cpp:94-98 | the read of the compressed bytes succeeds exactly when the header already covers them, or they fit the buffer and arrive |
| SocketServer.SocketServer.ReceiveStandard | socketserver.cpp:118-165 | the standard branch's outcome is `StandardSpec` and it consumes exactly the announced bytes when accepted |
| SocketServer.SocketServer.ProcessIncomingConnectionsLoop | socketserver.cpp:66-197 | over a whole connection the queue becomes `PushAll` of the frames `ConnectionSpec` gives, one reply is sent per accepted packet, and the result is the exception or `false` |
| MatrixDraw.PixelIndex | matrixdraw.h:58 | the row-major index of an in-range position lies within a frame of width * height pixels |
| MatrixDraw.ShowsIffScan | matrixdraw.h:54-61 | the matrix holds each frame pixel at its row-major position exactly when reading the matrix row after row gives the frame back |
| MatrixDraw.DrawFrame | matrixdraw.h:49-63 | it throws exactly when the frame's pixel count differs from width * height, leaving the matrix untouched; otherwise the matrix read row after row is the frame |
| MatrixDraw.DuePrefix | matrixdraw.h:75-78 | the count is that of the longest run of due frames at the front of the queue |
| MatrixDraw.DrainDueFrames | matrixdraw.h:75-81 | the due frames at the front are all removed; only the last of them is drawn, or it throws on a size mismatch; with none due nothing changes |

## Left out

- Socket setup, accept, the peer lookup, the receive timeout, `close` and the server's `begin`/`release`: the connection is given as a script of read events.
- The result of `write()` is ignored by the source and is not modelled.
- The zlib internals of `DecompressBuffer`, including an `inflateInit2` failure and what a failed inflate leaves in the output buffer: the model's failed inflate leaves the buffer unchanged.
- `CAppTime`, doubles and their rounding (apptime.h is not part of this model): timestamps and ages are exact integers in microseconds.
- The mutex of `LEDBufferManager` and the two threads that share it: each operation is atomic in the model.
- The `rgb_matrix` calls: `SetPixel` is an assignment to a two-dimensional canvas, and `SwapOnVSync` is not modelled.
- `RunDrawLoop`'s outer loop, its 1 ms sleep and `interrupt_received`: only one pass of the inner drain loop is modelled, with the clock fixed during it.
- main.cpp, network.cpp and pixeltypes.h are not part of this model.
- The telemetry values in the reply (brightness 100, wifi signal 99, zero fps and watts) are copied, not reasoned about.
- LedBuffer.LedBufferManager.constructor: requires a capacity of at least 1; with capacity 0 the source's first push pops an empty deque, which is undefined behaviour.
- LedBuffer.Newest: states only the length of the result; its contents are given by its body, the last `n` elements.
- Packet.OutputAfter: states only the length of the output buffer after a turn.
- Packet.StandardSpec: `size_t` is taken as 64 bits wide, so 24 + 3 * count (socketserver.cpp:132) and 3 * count + 24 (ledbuffer.h:114) never wrap. With a 32-bit `size_t`, a count of 0x55555556 would give a total of 26, pass both checks and build a frame of 0x55555556 pixels from 26 bytes; the model refuses that packet as too large. The same holds for SocketServer.SocketServer.ReceiveStandard and LedBuffer.CreateFromWire.
- SocketServer.SocketServer.ProcessIncomingConnectionsLoop: one clock reading `now` serves the whole connection, so every reply carries the same clock and ages; the source reads the clock again for each reply (socketserver.cpp:178-180).
- MatrixDraw.DrainDueFrames: the clock does not advance between the loop's age checks; the source rereads it each time.
- SocketServer.SocketServer.ProcessIncomingConnectionsLoop: states the number of replies sent over a connection, not their contents; each one's contents are stated by ProcessPacket.

## Findings

| source | as written | input that shows it | evidently intended | confidence | as-written member | corrected member |
|---|---|---|---|---|---|---|
| socketserver.cpp:94 | `COMPRESSED_HEADER_SIZE + compressedSize` is computed in 32-bit unsigned arithmetic and wraps | a compressed header with compressedSize 0xFFFFFFF0: the count wraps to 0, the read succeeds at once, and the decoder is told to read 0xFFFFFFF0 bytes from offset 16 of the read buffer | the count 16 + compressedSize without wrap-around, so that it is refused when larger than the buffer | high (not executed) | Packet.CompressedNeedWraps | Packet.CompressedInputInBounds |
