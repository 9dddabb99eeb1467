# MessagingMesh MM2 core in Dafny

A model of the protocol core of the MessagingMesh gateway (`MM2/MM2`), with
proofs of what it promises:

- **Buffer** (`buffer.dfy`, `wire.dfy`). A growable byte store with a cursor,
  a data size and capacity doubling up to `INT32_MAX`. It reads and writes
  little-endian `int8`, `int32`, `uint32`, 8-byte doubles and length-prefixed
  strings. `getBuffer` patches the frame length into bytes 0..3.
- **Stream framing** (`framing.dfy`). `readNetworkMessage` and
  `readNetworkMessageSize` rebuild `[int32 length][payload]` frames from
  arbitrarily split chunks, where the length counts its own four bytes. Each
  call is proved equal to a byte-at-a-time reference (`Take`).
- **The socket's receive path** (`receive.dfy`). The chunk loop of
  `Socket::onDataReceived` is proved to deliver exactly the frames that were
  sent, in order, however the bytes are split into chunks.
- **The socket's send path** (`socket.dfy`, `loop.dfy`, `consumable.dfy`).
  - `write`, `processQueuedWrites` and the `connected` flag across connect
    and migration to another loop.
  - The drain-and-clear queue with unique keys (`ThreadsafeConsumableVector`).
  - The loop's marshalled flush events.
- **Fields and messages** (`values.dfy`, `valuecodec.dfy`). Typed fields, the
  ordered field list with a first-by-name index, and their serialization,
  with round trips.
- **Network messages** (`header.dfy`, `send.dfy`). The header codec, the
  lazily created payload, and `Utils::sendNetworkMessage`.
- **Bookkeeping** (`gateway.dfy`, `connection.dfy`, `handshake.dfy`).
  - The gateway's pending sockets and its per-service managers.
  - A manager's clients and the ACK it writes to a socket after a move.
  - A client connection's subscriptions, its outgoing message log and its
    destructor.
  - The CONNECT/ACK handshake end to end.
- **Two JavaScript pieces** (`radar.dfy`, `counter.dfy`). The radar's colour
  strings, and the lazy singleton counter.

Modelling assumptions:

- `Buffer.h` does not match `Buffer.cpp`. A new buffer is taken to have:
  - nothing allocated;
  - the cursor at 4, just after the reserved length prefix;
  - a data size of 0.

  `resetPosition` returns the cursor to 4. `getBufferSize` is the data size,
  which is the frame length. The initial allocation is 8192 bytes.
- Uninitialised memory from a reallocation is modelled as zero bytes.
- The announced frame length is the unsigned little-endian value of the four
  prefix bytes.
- `NetworkMessageHeader.cpp` calls `write` and `readUInt32`, which the
  header does not declare. These are read as `write_uint32`/`read_uint32`,
  `write_string`/`read_string` and `write_int8`/`read_int8`.
- Doubles are opaque 8-byte values: every double round trip is bit for bit.
- Sending is appending to an output log:
  - the connection's `out`;
  - the socket's queue and the bytes it has handed to the network. The
    service manager's ACK goes there, through `Utils::sendNetworkMessage`.
- `ConnectionImpl.h` declares neither `m_subscriptions` nor
  `m_nextSubscriptionID`. The model takes:
  - `m_subscriptions` to be a `std::map` keyed by `uint32_t`, so the
    destructor walks it in ascending ID order;
  - `m_nextSubscriptionID` to be a `uint32_t`, so IDs wrap at 2^32.

## Model

| member | source | states |
|---|---|---|
| Wire.LE32RoundTrip | MM2/MM2/Buffer.cpp:56-81 | the four little-endian bytes of an unsigned 32-bit value decode to that value |
| Wire.Int8RoundTrip | MM2/MM2/Buffer.cpp:42-53 | an `int8` written as one byte reads back unchanged, negative values included |
| Wire.Int32RoundTrip | MM2/MM2/Buffer.cpp:56-67 | an `int32` written as four two's-complement bytes reads back unchanged |
| Wire.UInt32RoundTrip | MM2/MM2/Buffer.cpp:70-81 | a `uint32` written as four bytes reads back unchanged |
| Wire.DoubleRoundTrip | MM2/MM2/Buffer.cpp:84-95 | a double's eight bytes read back bit for bit |
| Wire.EncodeString | MM2/MM2/Buffer.cpp:118-128 | a string on the wire is a 4-byte length followed by exactly its bytes, with no terminator |
| Wire.Int32OfSizeBytes | MM2/MM2/Buffer.cpp:22-39 | `static_cast<int32_t>` of a size, stored as bytes, is the size modulo 2^32 read as unsigned |
| Wire.NonNegativeInt32IsUInt32 | MM2/MM2/Buffer.cpp:355-393 | a non-negative length written as `int32` has the same bytes as when written as `uint32` |
| Buffers.Create | MM2/MM2/Buffer.cpp:11-13 | a new buffer has nothing allocated, its cursor just after the 4-byte prefix and no data, and satisfies the buffer invariant |
| Buffers.SetPosition | MM2/MM2/Buffer.h:43 | moving the cursor changes neither the data nor the data size |
| Buffers.ResetPosition | MM2/MM2/Tests.cpp:28-35 | resetting puts the cursor on the first byte after the length prefix and keeps the data |
| Buffers.FitCapacity | MM2/MM2/Buffer.cpp:235-278 | repeated expansion settles on a capacity that holds what is needed, and always succeeds below `INT32_MAX` |
| Buffers.FitCapacityLeast | MM2/MM2/Buffer.cpp:252-278 | the capacity settled on is the first allocation or less than twice what is needed: growth stops at the first fit |
| Buffers.Grow | MM2/MM2/Buffer.cpp:252-278 | a reallocation lands exactly on the requested capacity |
| Buffers.GrowKeeps | MM2/MM2/Buffer.cpp:266-275 | a reallocation keeps every existing byte in place and changes nothing else |
| Buffers.GrowTwice | MM2/MM2/Buffer.cpp:252-278 | growing twice is the same as growing once to the larger capacity |
| Buffers.Expand | MM2/MM2/Buffer.cpp:252-278 | expansion fails with "max capacity" exactly when the capacity is already at least `INT32_MAX`, and otherwise strictly grows it |
| Buffers.Reserve | MM2/MM2/Buffer.cpp:235-249 | after `checkBufferSize_Write(n)` succeeds, `position + n` fits within a capacity that only grew; it fails only past `INT32_MAX` |
| Buffers.ReserveIsFit | MM2/MM2/Buffer.cpp:235-278 | the write check succeeds exactly when the growth chain fits, and lands on the capacity that chain settles on |
| Buffers.ReserveTwice | MM2/MM2/Buffer.cpp:235-249 | checking for `n` bytes and then for `m >= n` bytes is the same as checking for `m` at once |
| Buffers.ReserveAfterPut | MM2/MM2/Buffer.cpp:235-300 | checking after a copy is the same as checking for the copy and what follows, then copying |
| Buffers.PutTwice | MM2/MM2/Buffer.cpp:288-300 | two adjacent copies are one copy of their concatenation |
| Buffers.GrowPut | MM2/MM2/Buffer.cpp:252-300 | reallocation and copying commute |
| Buffers.WriteBytes | MM2/MM2/Buffer.cpp:145-155 | a write puts exactly its bytes at the cursor, advances the cursor by their number and raises the data size to at least the new cursor, never lowering it; it fails only past `INT32_MAX` |
| Buffers.WriteBytesShape | MM2/MM2/Buffer.cpp:145-155 | a write is one reallocation to the capacity the growth chain settles on, then the copy |
| Buffers.WriteBytesKeeps | MM2/MM2/Buffer.cpp:145-155 | a write changes no byte outside the region it copies into |
| Buffers.WriteBytesConcatOk | MM2/MM2/Buffer.cpp:145-155 | when there is room for both, writing `x` then `y` equals writing `x + y` |
| Buffers.WriteBytesConcat | MM2/MM2/Buffer.cpp:145-155 | writing `x + y` is writing `x` then `y`, failures included |
| Buffers.ReadBytes | MM2/MM2/Buffer.cpp:132-142 | a read fails exactly when fewer than `n` written bytes lie at the cursor; otherwise it returns them, advances the cursor by `n` and changes nothing else |
| Buffers.HoldsAtSplit | MM2/MM2/Buffer.cpp:223-230 | bytes at the cursor followed by more bytes can each be read in turn |
| Buffers.WriteString | MM2/MM2/Buffer.cpp:117-128 | the corrected `write_string` writes exactly the length-prefixed encoding, and refuses a string whose length `int32` cannot hold |
| Buffers.ReadInt8 | MM2/MM2/Buffer.cpp:42-47 | reading an `int8` fails exactly when no byte is left, and otherwise advances the cursor by 1 |
| Buffers.ReadInt32 | MM2/MM2/Buffer.cpp:56-61 | reading an `int32` fails exactly when fewer than 4 bytes are left, and otherwise advances by 4 |
| Buffers.ReadUInt32 | MM2/MM2/Buffer.cpp:70-75 | reading a `uint32` fails exactly when fewer than 4 bytes are left, and otherwise advances by 4 |
| Buffers.ReadDouble | MM2/MM2/Buffer.cpp:84-89 | reading a double fails exactly when fewer than 8 bytes are left, and otherwise advances by 8 |
| Buffers.ReadString | MM2/MM2/Buffer.cpp:98-115 | a string read fails past the end of the data or on a negative length; otherwise it succeeds exactly when the announced bytes lie within the data, returns them and leaves the cursor just after them |
| Buffers.ReadCheckPasses | MM2/MM2/Buffer.cpp:223-230 | for a non-negative length the read check passes exactly when the bytes lie within the data |
| Buffers.NegativeLengthPassesCheck | MM2/MM2/Buffer.cpp:98-115 | a negative string length passes the read check whenever the cursor is at least its magnitude |
| Buffers.RawWriteString | MM2/MM2/Buffer.cpp:117-155 | `write_string` as written: only a negative cast length can make the copy run past the allocation |
| Buffers.RawWriteStringAgrees | MM2/MM2/Buffer.cpp:117-128 | below 2^31 bytes the code as written and the corrected write give the same buffer or the same error |
| Buffers.TruncatedStringExample | MM2/MM2/Buffer.cpp:117-128 | a string of 2^32 + 5 bytes is written as its first 5 bytes and reads back as them; the corrected write refuses it |
| Buffers.WrappedLengthOverruns | MM2/MM2/Buffer.cpp:233-247 | a string of 2^32 - 1 bytes casts to length -1, passes the wrapped capacity check and copies past the allocation; the corrected write refuses it |
| Buffers.NegativeLengthExample | MM2/MM2/Buffer.cpp:98-115 | the length -4 at the end of an 8-byte buffer passes the check as written; the corrected read rejects it |
| Buffers.ReadInt8At | MM2/MM2/Buffer.cpp:42-53 | an encoded `int8` at the cursor reads back as that value |
| Buffers.ReadInt32At | MM2/MM2/Buffer.cpp:56-67 | an encoded `int32` at the cursor reads back as that value |
| Buffers.ReadUInt32At | MM2/MM2/Buffer.cpp:70-81 | an encoded `uint32` at the cursor reads back as that value |
| Buffers.ReadDoubleAt | MM2/MM2/Buffer.cpp:84-95 | an encoded double at the cursor reads back as that value |
| Buffers.ReadStringAt | MM2/MM2/Buffer.cpp:98-128 | an encoded string at the cursor reads back as that string |
| Buffers.WrittenHoldsAt | MM2/MM2/Buffer.cpp:132-155 | what a write puts at the cursor is what a read from the old cursor finds |
| Buffers.WriteInt8 | MM2/MM2/Buffer.cpp:42-53 | `write_int8` advances the cursor by the value's width and fails only past the 32-bit capacity limit; `read_int8` from the old cursor returns the value and ends where the write ended |
| Buffers.WriteInt32 | MM2/MM2/Buffer.cpp:56-67 | `write_int32` advances the cursor by the value's width and fails only past the 32-bit capacity limit; `read_int32` from the old cursor returns the value and ends where the write ended |
| Buffers.WriteUInt32 | MM2/MM2/Buffer.cpp:70-81 | `write_uint32` advances the cursor by the value's width and fails only past the 32-bit capacity limit; `read_uint32` from the old cursor returns the value and ends where the write ended |
| Buffers.WriteDouble | MM2/MM2/Buffer.cpp:84-95 | `write_double` advances the cursor by the value's width and fails only past the 32-bit capacity limit; `read_double` from the old cursor returns the value and ends where the write ended |
| Buffers.StringWriteRead | MM2/MM2/Buffer.cpp:98-128 | `write_string` then `read_string` from the same start returns the string and ends where the write ended |
| Buffers.FlattenConcat | MM2/MM2/Buffer.cpp:145-155 | flattening distributes over joining lists of regions |
| Buffers.WriteAllIsWriteOfFlatten | MM2/MM2/Buffer.cpp:145-155 | writing regions one after another is writing their concatenation |
| Buffers.SequentialWrites | MM2/MM2/Buffer.cpp:145-155 | writes into a new buffer lose no byte: the data after the prefix is the writes in order, and the data size is the prefix plus their total length |
| Buffers.GetBuffer | MM2/MM2/Buffer.cpp:22-39 | `getBuffer` stores the data size, little-endian, in bytes 0..3, allocating if needed, and changes nothing else |
| Buffers.PrefixReadsBack | MM2/MM2/Buffer.cpp:22-39 | the prefix `getBuffer` writes reads back as the data size modulo 2^32, so the frame length counts its own four bytes |
| Buffers.FrameBytes | MM2/MM2/Buffer.cpp:22-39 | the bytes a buffer contributes to a socket write are as many as its data size |
| Buffers.FrameLayout | MM2/MM2/Buffer.cpp:22-39 | a frame is its own length, then the payload written |
| Consumable.Empty | MM2/MM2/ThreadsafeConsumableVector.h:30-34 | a new queue has no items and no keys |
| Consumable.Add | MM2/MM2/ThreadsafeConsumableVector.h:37-41 | `add` puts the item at the end and records no key |
| Consumable.AddUnique | MM2/MM2/ThreadsafeConsumableVector.h:45-60 | `addUnique` answers true exactly when the key was new; then the item goes at the end and the key is recorded, otherwise nothing changes |
| Consumable.GetItems | MM2/MM2/ThreadsafeConsumableVector.h:63-70 | `getItems` returns every pending item in insertion order and leaves the items and the keys empty |
| Consumable.KeyFreeAfterDrain | MM2/MM2/ThreadsafeConsumableVector.h:63-70 | after a drain any key can be registered again |
| Consumable.ApplyKeeps | MM2/MM2/ThreadsafeConsumableVector.h:37-70 | producer calls between drains leave the earlier items followed by the kept ones in call order, and the union of the keys |
| Consumable.PlainAddsAllKept | MM2/MM2/ThreadsafeConsumableVector.h:37-41 | plain adds keep every item, in order |
| Consumable.SecondKeyedCallDropped | MM2/MM2/ThreadsafeConsumableVector.h:45-60 | two keyed calls under one key between drains keep only the first item |
| Framing.CreateReceiving | MM2/MM2/Buffer.cpp:305-352 | a new buffer is a receiving buffer with nothing received and no complete frame |
| Framing.FeedPending | MM2/MM2/Buffer.cpp:305-393 | a byte that does not complete a pending frame leaves it pending |
| Framing.ShiftShift | MM2/MM2/Buffer.cpp:305-352 | counting bytes taken is additive |
| Framing.TakePayload | MM2/MM2/Buffer.cpp:329-351 | once the prefix is in, a call takes payload up to the announced length or the end of the input |
| Framing.TakePrefix | MM2/MM2/Buffer.cpp:355-393 | with the prefix partial, a call takes prefix bytes first, then fails, finishes or continues with payload as the completed prefix dictates |
| Framing.ReadNetworkMessageSize | MM2/MM2/Buffer.cpp:355-393 | the prefix step takes prefix bytes only while the size is unknown, puts the cursor at 4 on completion, and fails only with a partial prefix |
| Framing.PrefixStep | MM2/MM2/Buffer.cpp:369-391 | a completed prefix fails exactly when it announces fewer than 4 bytes; otherwise the frame so far is the prefix and the cursor is 4 |
| Framing.GotAfterCopy | MM2/MM2/Buffer.cpp:329-346 | copying payload at the cursor extends the frame received so far by exactly those bytes |
| Framing.CopyPayload | MM2/MM2/Buffer.cpp:326-351 | the copy step takes `min(length - position, available)` bytes, grows the frame by them and sets `hasAllData` exactly when the frame is complete |
| Framing.AfterSize | MM2/MM2/Buffer.cpp:316-351 | after the prefix step the call copies payload only once the size is known, and makes progress when there is input and room |
| Framing.ReadNetworkMessage | MM2/MM2/Buffer.cpp:305-352 | a call on a completed frame takes nothing; otherwise it grows the frame by the bytes it takes, takes at least one byte when input remains, and fails only on a length below 4 |
| Framing.ReadWhenSizeKnown | MM2/MM2/Buffer.cpp:311-351 | with the size known, a call is the payload copy alone |
| Framing.SizeWhenUnknown | MM2/MM2/Buffer.cpp:355-393 | with the size unknown, the prefix step takes up to four bytes and checks the length they announce |
| Framing.ReadWhenSizeUnknown | MM2/MM2/Buffer.cpp:305-393 | a call that leaves the prefix partial only collects prefix bytes; one that completes a prefix below 4 fails |
| Framing.ReadThroughPrefix | MM2/MM2/Buffer.cpp:305-393 | a prefix that completes within a call is followed at once by the payload copy |
| Framing.ExactPrefix | MM2/MM2/Buffer.cpp:341-391 | a prefix announcing exactly 4 bytes completes the frame with no payload |
| Framing.ReadNetworkMessageIsTake | MM2/MM2/Buffer.cpp:305-393 | each call does exactly what feeding its bytes one at a time does: the same failure, or the same frame so far and bytes taken, with `hasAllData` set exactly when the frame is complete |
| Framing.RawReadNetworkMessageSize | MM2/MM2/Buffer.cpp:355-393 | the prefix step as written takes no more than the input and never more than four prefix bytes |
| Framing.RawReadNetworkMessage | MM2/MM2/Buffer.cpp:305-352 | the call as written takes no more than the input |
| Framing.RawCopyPayload | MM2/MM2/Buffer.cpp:326-351 | the copy as written overruns exactly when it copies past the allocation |
| Framing.RawAgrees | MM2/MM2/Buffer.cpp:305-393 | wherever the corrected function accepts the length, the code as written does the same and never overruns |
| Framing.ZeroLengthStalls | MM2/MM2/Buffer.cpp:316-320 | after a frame announcing length 0, every call as written takes nothing and changes nothing |
| Framing.ZeroLengthExample | MM2/MM2/Buffer.cpp:305-393 | the chunk `[0,0,0,0,7]` leaves its fifth byte never taken; the corrected function rejects the frame |
| Framing.ShortLengthOverruns | MM2/MM2/Buffer.cpp:326-351 | a frame announcing 1 to 3 bytes makes the call as written copy the rest of the chunk past the allocation without completing |
| Framing.ShortLengthRejected | MM2/MM2/Buffer.cpp:369-391 | the corrected function rejects any announced length below 4 as soon as the prefix is in |
| Receive.FeedBytesConcat | MM2/MM2/Socket.cpp:553-581 | feeding two pieces one after the other is feeding their concatenation |
| Receive.BadAbsorbs | MM2/MM2/Socket.cpp:553-581 | after a bad prefix nothing more is taken |
| Receive.FramesGrow | MM2/MM2/Socket.cpp:553-581 | completed frames are never taken back |
| Receive.TakeIsFeed | MM2/MM2/Buffer.cpp:305-393 | what one buffer call takes, fed byte by byte, fails, completes one frame, or leaves it pending with the whole input taken |
| Receive.DeliveredContents | MM2/MM2/Socket.cpp:569-575 | a completed buffer with its cursor reset holds exactly the frame received |
| Receive.StepTakes | MM2/MM2/Socket.cpp:553-581 | a successful buffer call appends its completed frame or extends the pending one, exactly as the byte reference does |
| Receive.StepFails | MM2/MM2/Socket.cpp:553-581 | a failing buffer call leaves the byte-level stream bad |
| Receive.Current | MM2/MM2/Socket.cpp:557-563 | the buffer a pass reads into holds the pending frame, or is a new one between frames |
| Receive.LoopStep | MM2/MM2/Socket.cpp:553-581 | one pass keeps the receiver well formed and takes at least one byte of a non-empty remainder |
| Receive.LoopStepIsFeed | MM2/MM2/Socket.cpp:553-581 | one pass takes its bytes exactly as the byte reference does and only appends to the delivered buffers |
| Receive.TracksStep | MM2/MM2/Socket.cpp:553-581 | the loop invariant "the receiver has taken exactly the bytes up to the cursor" survives each pass |
| Receive.TracksFail | MM2/MM2/Socket.cpp:553-581 | a failing pass means the whole chunk fed byte by byte ends bad |
| Receive.ReceiveChunk | MM2/MM2/Socket.cpp:553-581 | the chunk loop takes the whole chunk, exactly as feeding it byte by byte, and only appends to the delivered buffers |
| Receive.OnDataReceived | MM2/MM2/Socket.cpp:495-590 | data is fed through the chunk loop; `nread < 1` changes nothing, and end of file is reported as a disconnection |
| Receive.FeedWholeFrame | MM2/MM2/Socket.cpp:553-581 | a whole frame fed between frames is appended to the completed frames |
| Receive.FeedFramePrefix | MM2/MM2/Socket.cpp:553-581 | every proper prefix of a frame stays pending |
| Receive.FeedWholeFrames | MM2/MM2/Socket.cpp:553-581 | frames sent back to back arrive as exactly those frames, in order |
| Receive.FrameBytesComplete | MM2/MM2/Buffer.cpp:22-39 | the bytes `getBuffer` hands to the socket form one complete frame |
| Receive.ReceiveChunks | MM2/MM2/Socket.cpp:495-590 | reading a stream as several chunks is feeding their concatenation |
| Receive.SentFramesArrive | MM2/MM2/Socket.cpp:495-590 | frames sent back to back, however split into chunks, are delivered exactly, in order, with nothing left pending |
| Sockets.PayloadConcat | MM2/MM2/Socket.cpp:406-425 | the bytes of joined buffer lists are the joined bytes |
| Sockets.PayloadSize | MM2/MM2/Socket.cpp:406-425 | the coalesced write's `totalSize` is the length of the concatenated frames |
| Sockets.NewSocket | MM2/MM2/Socket.cpp:13-20 | a new socket is not connected and owes nothing |
| Sockets.Write | MM2/MM2/Socket.cpp:378-392 | `write` adds the buffer's frame after everything asked for before and sends nothing yet |
| Sockets.ProcessQueuedWrites | MM2/MM2/Socket.cpp:395-444 | a disconnected socket does nothing; a connected one drains its queue into one write of `totalSize` bytes; the bytes owed and their order are unchanged |
| Sockets.OnSocketConnected | MM2/MM2/Socket.cpp:69-88 | connecting sets the flag and flushes the queue at once |
| Sockets.MoveToLoop | MM2/MM2/Socket.cpp:274-307 | a move clears the flag so later writes are only queued |
| Sockets.RegisterDuplicated | MM2/MM2/Socket.cpp:341-372 | re-registration switches loop and, when the handle opens, reconnects and flushes; otherwise the queue stays |
| Sockets.StepKeepsOutgoing | MM2/MM2/Socket.cpp:378-444 | each operation adds to what is owed exactly the frame it writes |
| Sockets.RunConcat | MM2/MM2/Socket.cpp:378-444 | running two lists of operations is running their concatenation |
| Sockets.RunKeepsOutgoing | MM2/MM2/Socket.cpp:274-444 | whatever the interleaving of writes, flushes, moves and reconnections, no write is lost or reordered |
| Sockets.MoveThenRegisterSendsAll | MM2/MM2/Socket.cpp:274-372 | after a move and re-registration, everything written before and during the move has been handed to the network, in write order |
| Sockets.FramesComplete | MM2/MM2/Buffer.cpp:22-39 | every buffer written with data contributes a complete frame |
| Sockets.SentArrives | MM2/MM2/Socket.cpp:378-590 | end to end: what a socket hands to the network is delivered by the peer's socket as exactly the frames written, in order |
| Loops.FlushKey | MM2/MM2/Socket.cpp:385-391 | the per-socket key names its socket |
| Loops.SocketWrite | MM2/MM2/Socket.cpp:378-392 | a write queues on its own socket only and marshals its flush under the key |
| Loops.SocketConnected | MM2/MM2/Socket.cpp:69-88 | a connection flushes that socket at once and touches no other |
| Loops.SocketMoving | MM2/MM2/Socket.cpp:274-307 | a socket moving away keeps its queue and stops flushing |
| Loops.Drain | MM2/MM2/UVLoop.cpp:112-127 | processing the marshalled events leaves no event pending |
| Loops.FlushAllEffect | MM2/MM2/UVLoop.cpp:112-127 | after the flushes, a named connected socket is empty, every socket keeps its bytes owed, and an unnamed socket is untouched |
| Loops.FlushEmptyStays | MM2/MM2/Socket.cpp:395-444 | a connected socket with nothing queued stays empty through any flushes |
| Loops.StartGood | MM2/MM2/UVLoop.cpp:97-110 | a loop with no events and no queued writes on connected sockets has every flush scheduled |
| Loops.WriteKeepsGood | MM2/MM2/UVLoop.cpp:97-110 | with a key per socket, a write leaves its socket's flush pending |
| Loops.ConnectKeepsGood | MM2/MM2/Socket.cpp:69-88 | connecting keeps every pending write scheduled |
| Loops.MovingKeepsGood | MM2/MM2/Socket.cpp:274-307 | a move keeps every pending write scheduled |
| Loops.DrainFlushesAll | MM2/MM2/UVLoop.cpp:112-127 | with a key per socket, a drain leaves no connected socket with queued writes and changes no bytes owed |
| Loops.SharedKeyStrandsWrite | MM2/MM2/UVLoop.cpp:97-110 | with the single loop-wide key, the second of two sockets that write before a drain is left with its buffer queued |
| Loops.PerSocketKeyFlushesBoth | MM2/MM2/UVLoop.cpp:97-127 | with a key per socket, the same two writes are both flushed by the drain |
| Values.TypeCode | MM2/MM2/Field.h:15-22 | type codes run from `NOT_SET` = 0 to `MESSAGE` = 4 |
| Values.TypeCodeIdentifies | MM2/MM2/Field.h:15-22 | two values have the same code exactly when they are of the same kind |
| Values.NewField | MM2/MM2/FieldImpl.cpp:10-14 | a new field has no name and is `NOT_SET` |
| Values.SetName | MM2/MM2/FieldImpl.cpp:20-76 | setting the name keeps the value |
| Values.SetString | MM2/MM2/FieldImpl.cpp:20-76 | after `setString` the type is STRING and `getString` returns the value |
| Values.SetSignedInt32 | MM2/MM2/FieldImpl.cpp:20-76 | after `setSignedInt32` the type is SIGNED_INT32 and its getter returns the value |
| Values.SetDouble | MM2/MM2/FieldImpl.cpp:20-76 | after `setDouble` the type is DOUBLE and its getter returns the value |
| Values.SetMessage | MM2/MM2/FieldImpl.cpp:20-76 | after `setMessage` the type is MESSAGE and its getter returns the message |
| Values.GetString | MM2/MM2/FieldImpl.cpp:20-76 | a failing `getString` names the field and STRING |
| Values.GetSignedInt32 | MM2/MM2/FieldImpl.cpp:20-76 | a failing `getSignedInt32` names the field and SIGNED_INT32 |
| Values.GetDouble | MM2/MM2/FieldImpl.cpp:20-76 | a failing `getDouble` names the field and DOUBLE |
| Values.GetMessage | MM2/MM2/FieldImpl.cpp:20-76 | a failing `getMessage` names the field and MESSAGE |
| Values.OneGetterSucceeds | MM2/MM2/FieldImpl.cpp:20-76 | exactly the getter of the field's type succeeds; none does on an unset field |
| Values.NewMessage | MM2/MM2/MessageImpl.cpp:21-59 | a new message has no fields, and its index agrees with them |
| Values.Append | MM2/MM2/MessageImpl.cpp:45-58 | the field goes at the end of the list; the index gains its name and keeps every earlier entry |
| Values.AddField | MM2/MM2/MessageImpl.cpp:21-59 | `addField` appends a field with that name and value and keeps the index consistent with the list |
| Values.GetField | MM2/MM2/MessageImpl.cpp:11-19 | `getField` succeeds exactly when the name is indexed, and otherwise fails naming it |
| Values.IndexOfIsFirst | MM2/MM2/MessageImpl.cpp:58 | the reference index holds a name exactly when some field has it, mapped to the first such field |
| Values.FirstNamedIsFirst | MM2/MM2/MessageImpl.cpp:58 | the first field under a name is in the list and no earlier field has that name |
| Values.IndexOfAppend | MM2/MM2/MessageImpl.cpp:58 | appending does not overwrite an existing index entry |
| Values.AppendIndexed | MM2/MM2/MessageImpl.cpp:45-58 | appending keeps the index consistent with the list |
| Values.GetFieldIsFirst | MM2/MM2/MessageImpl.cpp:11-19 | `getField` returns the first field added under the name, and fails exactly when no field has it |
| Values.AppendAllAppends | MM2/MM2/MessageImpl.cpp:74-86 | appending fields in turn puts them after the existing ones, in order, with the index kept consistent |
| Values.RebuildIndexed | MM2/MM2/MessageImpl.cpp:74-86 | appending a message's fields to an empty message rebuilds it |
| Values.AddFieldKeepsFirst | MM2/MM2/MessageImpl.cpp:45-58 | a duplicate name is kept in the list but not found by name |
| ValueCodec.EncodeStr | MM2/MM2/Buffer.cpp:117-128 | a string has an encoding exactly when it is shorter than 2^31 bytes: its length, then its bytes |
| ValueCodec.EncodeMessageOk | MM2/MM2/MessageImpl.cpp:61-72 | a message has an encoding if every value is set and every length fits, and only if every value is set |
| ValueCodec.EncodeFieldsOk | MM2/MM2/MessageImpl.cpp:61-72 | a field list has an encoding if every field fits and holds a value, and only if every field holds a value |
| ValueCodec.EncodeFieldOk | MM2/MM2/FieldImpl.cpp:78-108 | a field has an encoding if it fits and holds a value, and only if it holds a value |
| ValueCodec.SerializeValue | MM2/MM2/FieldImpl.cpp:84-103 | serializing a value is one write of its reference encoding, and fails when it has none |
| ValueCodec.SerializeField | MM2/MM2/FieldImpl.cpp:78-108 | serializing a field is one write of its reference encoding (name, code, value), and fails when it has none |
| ValueCodec.SerializeFields | MM2/MM2/MessageImpl.cpp:67-71 | serializing a non-empty list of fields in order is one write of their concatenated encodings, an empty list leaves the buffer as it was, and a field without an encoding makes it fail |
| ValueCodec.SerializeMessage | MM2/MM2/MessageImpl.cpp:61-72 | serializing a message is one write of its reference encoding (count, then fields), and fails when it has none |
| ValueCodec.ReadValue | MM2/MM2/FieldImpl.cpp:110-140 | a value read after a code has that code and moves the cursor forward within the data |
| ValueCodec.ReadField | MM2/MM2/FieldImpl.cpp:110-140 | reading a field moves the cursor forward within the data and changes nothing else |
| ValueCodec.ReadFields | MM2/MM2/MessageImpl.cpp:74-86 | reading fields moves only the cursor, forward and within the data |
| ValueCodec.Deserialize | MM2/MM2/MessageImpl.cpp:74-86 | deserializing moves the cursor forward within the data and changes nothing else |
| ValueCodec.ReadMessage | MM2/MM2/Buffer.cpp:175-181 | `read_message` moves the cursor forward within the data |
| ValueCodec.ReadValueAt | MM2/MM2/FieldImpl.cpp:110-140 | an encoded value at the cursor reads back as that value, just past its encoding |
| ValueCodec.ReadFieldAt | MM2/MM2/FieldImpl.cpp:110-140 | an encoded field at the cursor reads back as that field, name, type and value |
| ValueCodec.ReadFieldsAt | MM2/MM2/MessageImpl.cpp:74-86 | encoded fields at the cursor are read back and appended in order |
| ValueCodec.DeserializeAt | MM2/MM2/MessageImpl.cpp:74-86 | an encoded message at the cursor deserializes as its fields appended to the target |
| ValueCodec.MessageRoundTrip | MM2/MM2/MessageImpl.cpp:61-86 | a message serialized and read back from where the write began is the same message, with the cursor where the write ended |
| ValueCodec.DeserializeAppends | MM2/MM2/MessageImpl.cpp:74-86 | deserializing into a message with fields appends the new ones after them, and earlier names keep their fields |
| ValueCodec.AppendAllKeeps | MM2/MM2/MessageImpl.cpp:58 | appending never changes the field found under a name already indexed |
| ValueCodec.UnsetFieldRejected | MM2/MM2/FieldImpl.cpp:105-106 | a `NOT_SET` field cannot be serialized, and with room for its name and code it fails with "not handled" |
| ValueCodec.UnknownCodeRejected | MM2/MM2/FieldImpl.cpp:137-138 | a type code outside 1..4 stops deserialization |
| ValueCodec.AddFieldDecodable | MM2/MM2/MessageImpl.cpp:21-59 | adding a set value that fits keeps a message readable back |
| ValueCodec.ThreeFieldsByName | MM2/MM2/MessageImpl.cpp:11-59 | three fields added under distinct names are each found by name |
| ValueCodec.PersonDecodable | MM2/MM2/Tests.cpp:16-26 | the test's person and address messages can be read back and their fields are found by name |
| ValueCodec.PersonRoundTrip | MM2/MM2/Tests.cpp:16-43 | the person with a nested address, serialized, reset and deserialized, gives back every field's value through its getter |
| NetworkMessages.NewHeader | MM2/MM2/NetworkMessageHeader.h:68-78 | a new header has ID 0, empty subjects and action NONE |
| NetworkMessages.EncodeHeader | MM2/MM2/NetworkMessageHeader.cpp:11-24 | a header has an encoding exactly when both subjects are shorter than 2^31 bytes |
| NetworkMessages.SerializeHeader | MM2/MM2/NetworkMessageHeader.cpp:11-24 | serializing a header is one write of its reference encoding (ID, subject, reply subject, action, in that order), and fails when it has none |
| NetworkMessages.ReadHeader | MM2/MM2/NetworkMessageHeader.cpp:27-40 | reading a header moves the cursor forward within the data |
| NetworkMessages.ReadHeaderSteps | MM2/MM2/NetworkMessageHeader.cpp:27-40 | a header is read as its four items in turn |
| NetworkMessages.ReadHeaderAt | MM2/MM2/NetworkMessageHeader.cpp:27-40 | an encoded header at the cursor reads back as that header |
| NetworkMessages.HeaderRoundTrip | MM2/MM2/NetworkMessageHeader.cpp:11-40 | a header serialized and read back is the same header, whatever its action byte, with the cursor where the write ended |
| NetworkMessages.NewNetworkMessage | MM2/MM2/NetworkMessage.cpp:7-9 | a new envelope has a default header and no payload yet |
| NetworkMessages.GetMessage | MM2/MM2/NetworkMessage.cpp:17-21 | `getMessage` creates an empty payload on first use and returns the one held afterwards |
| NetworkMessages.GetMessageStable | MM2/MM2/NetworkMessage.cpp:61-67 | once created, the payload is the same on every later access |
| NetworkMessages.SetMessage | MM2/MM2/NetworkMessage.cpp:24-27 | `setMessage` replaces the payload and keeps the header |
| NetworkMessages.SerializeNetworkMessage | MM2/MM2/NetworkMessage.cpp:30-38 | serializing an envelope is one write of its reference encoding (header, then payload), and fails when it has none |
| NetworkMessages.UnsetPayloadIsEmpty | MM2/MM2/NetworkMessage.cpp:30-38 | with no payload set, the header is followed by a zero field count |
| NetworkMessages.DeserializeHeader | MM2/MM2/NetworkMessage.cpp:48-51 | `deserializeHeader` moves the cursor forward and leaves the payload alone |
| NetworkMessages.DeserializeMessage | MM2/MM2/NetworkMessage.cpp:54-58 | `deserializeMessage` moves the cursor forward and leaves the header alone |
| NetworkMessages.DeserializeNetworkMessage | MM2/MM2/NetworkMessage.cpp:41-45 | deserializing an envelope moves the cursor forward within the data |
| NetworkMessages.HeaderStopsAtMessage | MM2/MM2/NetworkMessage.cpp:48-58 | reading only the header stops exactly where the payload began |
| NetworkMessages.DeserializeNetworkMessageAt | MM2/MM2/NetworkMessage.cpp:41-58 | an encoded envelope at the cursor reads back whole, and its header alone reads back too |
| NetworkMessages.NetworkMessageRoundTrip | MM2/MM2/NetworkMessage.cpp:30-58 | an envelope serialized and deserialized into a new one has the same header and payload, an empty one when none was set |
| Sending.SentFrame | MM2/MM2/Buffer.cpp:22-39 | a sent frame is the frame length, prefix included, then the encoding |
| Sending.SendNetworkMessage | MM2/MM2/Utils.cpp:74-80 | sending adds exactly the message's frame after everything asked for before, and a message without an encoding is not sent |
| Sending.ReceivedFrameDecodes | MM2/MM2/Socket.cpp:569-575 | a delivered frame deserializes to the message sent, and its header alone reads as the header sent |
| Sending.FrameHeld | MM2/MM2/Socket.cpp:569-575 | a delivered buffer holds exactly the encoding after its prefix |
| Gateways.NewServiceManager | MM2/MM2/ServiceManager.cpp:10-14 | a new manager has no clients |
| Gateways.RegisterSocket | MM2/MM2/ServiceManager.cpp:17-27 | the socket is filed under its name, reports to this manager and starts moving to its loop; other clients are untouched |
| Gateways.ManagerOnDataReceived | MM2/MM2/ServiceManager.cpp:31-56 | only a readable SEND_MESSAGE header reaches `onMessage`, with that header |
| Gateways.OnMessage | MM2/MM2/ServiceManager.cpp:93-95 | `onMessage` changes nothing |
| Gateways.ManagerOnDisconnected | MM2/MM2/ServiceManager.cpp:60-72 | the name leaves the client map and nothing else changes |
| Gateways.AckMessage | MM2/MM2/ServiceManager.cpp:75-90 | the ACK has action ACK and every other header field at its default |
| Gateways.AckEncodes | MM2/MM2/ServiceManager.cpp:75-90 | the ACK has an encoding small enough for a buffer |
| Gateways.OnMoveToLoopComplete | MM2/MM2/ServiceManager.cpp:75-90 | the moved socket owes the ACK's frame after everything it was asked to send before, and nothing more is handed to the network |
| Gateways.MoveCompleted | MM2/MM2/Socket.cpp:341-372 | the moved socket is on the manager's loop, connected if its handle opened; it owes what it owed before, followed by the ACK's frame exactly when the handle opened and the socket reports to this manager; other clients are untouched |
| Gateways.RegisterThenMoveAcks | MM2/MM2/ServiceManager.cpp:17-90 | a registered socket whose move completes is connected on the manager's loop, has handed the network everything written before and during the move, and then has the ACK's frame as its only queued frame |
| Gateways.FailedMoveSendsNothing | MM2/MM2/Socket.cpp:341-372 | a move whose handle fails to open hands nothing to the network, writes no ACK and keeps the writes queued |
| Gateways.NewGateway | MM2/MM2/Gateway.cpp:12-23 | a new gateway has no pending sockets and no managers |
| Gateways.OnNewConnection | MM2/MM2/Gateway.cpp:42-55 | a new socket waits under its name, reporting to the gateway |
| Gateways.ManagerFor | MM2/MM2/Gateway.cpp:122-127 | an existing manager is reused; otherwise a new one is made on a new loop |
| Gateways.OnConnect | MM2/MM2/Gateway.cpp:106-134 | `onConnect` fails, changing nothing, exactly when the socket is not pending; otherwise the socket leaves pending and is registered with the service's one manager |
| Gateways.OnDataReceived | MM2/MM2/Gateway.cpp:59-80 | data that is not a readable CONNECT, or comes from a socket that is not pending, changes nothing; a CONNECT moves the pending socket, with its queued writes, to the manager filed under the subject, reporting to that manager, and leaves the other managers alone |
| Gateways.OnDisconnected | MM2/MM2/Gateway.cpp:84-103 | the name leaves pending; an absent name changes nothing |
| Gateways.NewGatewayGood | MM2/MM2/Gateway.cpp:12-23 | a new gateway satisfies the bookkeeping invariant |
| Gateways.OnNewConnectionKeepsGood | MM2/MM2/Gateway.cpp:42-55 | a new connection keeps the invariant |
| Gateways.OnConnectKeepsGood | MM2/MM2/Gateway.cpp:106-134 | a successful connect keeps the invariant: at most one manager per service, on its own loop |
| Gateways.OnConnectKeepsLoopsApart | MM2/MM2/Gateway.cpp:122-127 | managers' loops stay distinct from the gateway's and from each other |
| Gateways.OnConnectKeepsFiled | MM2/MM2/Gateway.cpp:106-134 | every socket stays filed under its own name and reports to its holder |
| Gateways.OnDataReceivedKeepsGood | MM2/MM2/Gateway.cpp:59-80 | received data keeps the invariant |
| Gateways.OnDisconnectedKeepsGood | MM2/MM2/Gateway.cpp:84-103 | a disconnection keeps the invariant |
| Gateways.SecondConnectSameManager | MM2/MM2/Gateway.cpp:122-127 | a second CONNECT for a service reuses its manager and loop, and the clients it has stay |
| Connections.OnAck | MM2/MM2/ConnectionImpl.cpp:174-185 | an ACK sets the signal and changes nothing else |
| Connections.OnDataReceived | MM2/MM2/ConnectionImpl.cpp:136-157 | the signal is set exactly when it was already or the header read is ACK; nothing else changes |
| Connections.ReceiveAllAcks | MM2/MM2/ConnectionImpl.cpp:136-185 | over many buffers the signal ends set exactly when one of them is an ACK |
| Connections.Open | MM2/MM2/ConnectionImpl.cpp:13-53 | the constructor sends one CONNECT for the service and succeeds exactly when an ACK arrives, otherwise failing with a timeout |
| Connections.SendMessageTo | MM2/MM2/ConnectionImpl.cpp:81-92 | `sendMessage` sends one SEND_MESSAGE with the subject and payload and changes nothing else |
| Connections.SubscribeTo | MM2/MM2/ConnectionImpl.cpp:96-115 | `subscribe` hands out the next ID, records the subscription unless the ID is taken, and sends SUBSCRIBE with the ID and subject |
| Connections.UnsubscribeId | MM2/MM2/ConnectionImpl.cpp:118-132 | `unsubscribe` always sends UNSUBSCRIBE with the ID and removes the entry only when asked |
| Connections.ResetConnection | MM2/MM2/Subscription.cpp:31-35 | the back-reference is cleared; ID and callback stay |
| Connections.Release | MM2/MM2/Subscription.cpp:14-27 | a live subscription's destructor unsubscribes and removes itself; a reset one does nothing |
| Connections.IdsFromAscending | MM2/MM2/ConnectionImpl.cpp:56-78 | the destructor's walk visits exactly the recorded IDs, each once, smallest first, as a `std::map` is walked (the container type is an assumption, see above) |
| Connections.UnsubscribeEachSends | MM2/MM2/ConnectionImpl.cpp:56-78 | the loop sends one UNSUBSCRIBE per ID, in order, and changes nothing else |
| Connections.Close | MM2/MM2/ConnectionImpl.cpp:56-78 | the destructor clears the subscriptions and resets every one of them |
| Connections.CloseSends | MM2/MM2/ConnectionImpl.cpp:56-78 | closing sends UNSUBSCRIBE for every ID in the map's ascending order, then DISCONNECT |
| Connections.CloseUnsubscribesEachOnce | MM2/MM2/ConnectionImpl.cpp:56-78 | every recorded ID is unsubscribed exactly once, smallest first, and no other |
| Connections.ReleaseAfterCloseSendsNothing | MM2/MM2/Subscription.cpp:14-35 | a subscription reset by the close sends nothing when destroyed afterwards |
| Connections.OpenGood | MM2/MM2/ConnectionImpl.cpp:13-53 | a new connection has its subscriptions filed and counted |
| Connections.SubscribeKeepsFiled | MM2/MM2/ConnectionImpl.cpp:96-115 | subscribing keeps every subscription filed under its ID, pointing back here |
| Connections.SubscribeInserts | MM2/MM2/ConnectionImpl.cpp:96-115 | before the counter wraps, a subscribe always records the new subscription |
| Connections.UnsubscribeKeepsGood | MM2/MM2/ConnectionImpl.cpp:118-132 | unsubscribing keeps the subscriptions filed and counted |
| Connections.ReleaseRemovesOwn | MM2/MM2/Subscription.cpp:14-27 | destroying a live subscription removes exactly its own entry and sends its UNSUBSCRIBE |
| Connections.SubscribeThenRelease | MM2/MM2/Subscription.cpp:6-27 | subscribing then destroying the subscription leaves the collection as before and sends SUBSCRIBE then UNSUBSCRIBE for one ID |
| Connections.IdAfterIsSum | MM2/MM2/ConnectionImpl.cpp:96-115 | the IDs handed out count up by one modulo 2^32 |
| Connections.IdsInSequence | MM2/MM2/ConnectionImpl.cpp:96-115 | the i-th subscribe sends SUBSCRIBE with the i-th ID and the i-th subject |
| Connections.FirstIdsCountFromZero | MM2/MM2/ConnectionImpl.cpp:13-115 | a new connection's subscriptions get IDs 0, 1, 2 and so on |
| Handshake.NoPayloadDecodable | MM2/MM2/NetworkMessage.cpp:30-38 | a network message without payload carries an empty message that reads back |
| Handshake.DeliveredHeader | MM2/MM2/Gateway.cpp:59-80 | a delivered frame's header reads back as the header sent |
| Handshake.ConnectRegistersThenAcks | MM2/MM2/Gateway.cpp:59-134 | a CONNECT from a pending socket registers it with the service's manager, still owing exactly what it owed, and the completed move then adds exactly the ACK's frame to what it owes |
| Handshake.AckOpens | MM2/MM2/ConnectionImpl.cpp:36-52 | the ACK's frame arriving before the wait gives up opens the client connection |
| Radar.Digit | radar/Utils.js:44-47 | each value below 16 is written as a lower-case hexadecimal digit that denotes it |
| Radar.DigitOfValue | radar/Utils.js:44-47 | every lower-case hexadecimal digit is the digit of its value |
| Radar.HexRoundTrip | radar/Utils.js:44-47 | the hexadecimal digits of a number denote that number |
| Radar.HexLength | radar/Utils.js:44-47 | one digit below 16, two below 256, three or more from 256 on |
| Radar.ComponentToHex | radar/Utils.js:44-47 | a component's rendering is at least two characters |
| Radar.ByteComponent | radar/Utils.js:44-47 | a component in 0..255 becomes exactly two digits denoting it, a single digit padded with "0" |
| Radar.NegativeComponent | radar/Utils.js:44-47 | a negative component above -16 is "-" and one digit, not padded |
| Radar.WideComponent | radar/Utils.js:43-52 | components are not clamped: from 256 on, or below -15, the rendering is longer than two characters |
| Radar.RgbToString | radar/Utils.js:43-52 | the colour string starts with "#" and has at least seven characters |
| Radar.RgbLayout | radar/Utils.js:43-52 | the colour string is "#" followed by the r, g and b renderings, in that order |
| Radar.RgbRoundTrip | radar/Utils.js:43-52 | with components in 0..255 the string has length 7 and its three pairs read back as r, g and b |
| Radar.ColorToString | radar/Utils.js:34-36 | a colour's string starts with "#" and has at least seven characters |
| Radar.ColorRoundTrip | radar/Utils.js:34-52 | a colour with components in 0..255 renders as seven characters whose pairs denote r, g and b |
| Singleton.NewCounter | singleton/counter.js:2-4 | a new counter starts at 0 |
| Singleton.Increment | singleton/counter.js:6-8 | `increment` adds exactly one to that counter and changes no other object |
| Singleton.GetInstance | singleton/counter.js:10-17 | the first call creates a counter at 0 and records it as the instance; later calls return the instance and change nothing |
| Singleton.GetInstanceStable | singleton/counter.js:12-17 | a second call returns the same object |
| Singleton.IncrementsAccumulate | singleton/counter.js:6-17 | increments through `getInstance` accumulate on one object and leave every other object alone |
| Singleton.FromStart | singleton/counter.js:2-17 | from the start, `k` increments through `getInstance` leave one counter, the instance, at `k` |

## Left out

- libuv I/O: listening, accepting, connecting, DNS, `uv_write`, `uv_close` and handle duplication. Only their effect on the `connected` flag and the queue is modelled. The success of `uv_tcp_open` is a parameter (`tcpOpened`).
- Threads, mutexes, `uv_async` and `uv_run`. Every transition is sequential, and the loop's marshalled events are only the write flushes.
- The race in which a flush queued on the old loop runs after the move. Migration is one sequential transition.
- `AutoResetEvent` and its 30-second wait. The buffers that arrive before the wait gives up are a parameter of `Connections.Open`.
- The logger and `Utils::format`. Logged errors are `Result` failures or are dropped where the source drops them.
- Floating point. Doubles are opaque 8-byte values. The radar model takes whole-number components, so `Math.round` is the identity there. The radar colour components are small whole numbers, well inside the range where JavaScript numbers are exact.
- `Field.cpp`, `Message.cpp`, `main.cpp`, and the MM1 and `libuv-sockets` snapshots are not part of this model. The first two forward one to one to the Impl classes.
- The stale headers `Buffer.h`, `ServiceManager.h`, `ConnectionImpl.h`, `Subscription.h`, `Connection.h` and `NetworkData.h`. The `.cpp` files are followed instead, and the buffer's initial state is the assumption stated above.
- Buffers.WriteString: refuses every string of 2^31 bytes or more with the capacity error. The source casts the length to `int32`: it writes a longer string truncated to its length modulo 2^32, or copies past the allocation when the cast is negative. The code as written is `Buffers.RawWriteString` (see Findings); the rest of the model uses the corrected write.
- ValueCodec.EncodeStr: "an encoding exactly when shorter than 2^31 bytes" describes the corrected write only. The source writes longer strings truncated or overruns, as `Buffers.RawWriteString` states.
- NetworkMessages.EncodeHeader: "an encoding exactly when both subjects are shorter than 2^31 bytes" describes the corrected write only. The source writes longer subjects truncated or overruns, as `Buffers.RawWriteString` states.
- Shared ownership of messages. A field holds its sub-message, and a network message its payload, through a shared pointer (`ConstMessagePtr`, `MessagePtr`); the model holds messages by value. Two consequences are not modelled: a sub-message changed after `addField` shows the change through its parent, and a message added into itself makes `serialize` recurse without end. Every message in the model is a finite tree.
- Buffers.WriteAll: requires at least one region. An empty `write_bytes` still reallocates when the cursor lies beyond the capacity, so the empty list is not the empty write.
- ValueCodec.MessageRoundTrip: requires a decodable message. That means every value set, every length fitting in `int32`, and every index consistent with its field list, as `addField` keeps it.
- NetworkMessages.NetworkMessageRoundTrip: requires a decodable payload, for the same reason.
- Gateways.MoveCompleted: requires the socket to be among the manager's clients. The source only calls it for a socket it registered.
- Gateways.OnMessage: the stub does nothing, so nothing about message routing is stated.
- Connections.Release: requires the back-reference, when set, to point at the connection passed. The source dereferences the address it holds.
- Connections.SendMessageTo: appends to the `out` log even when the message has no encoding. `Sending.SendNetworkMessage` states separately that such a message puts nothing on the socket.
- Receive.OnDataReceived: the disconnection callback is a boolean result. The callback's own effect is `Gateways.OnDisconnected` or `Gateways.ManagerOnDisconnected`.
- Framing.ShortLengthOverruns: requires the chunk to be shorter than 2^32 bytes. A libuv read is far below that.
- Singleton.Increment: a JavaScript number is exact only below 2^53, and from there `count++` stops increasing. The model's count is unbounded, so "adds exactly one" holds of the source only while the count is below 2^53.
- Singleton.IncrementsAccumulate: the same limit. The accumulated count equals the source's only while it stays below 2^53.
- Singleton.FromStart: the same limit. `k` increments leave the counter at `k` in the source only for `k` up to 2^53.
- Loops: all sockets belong to one loop, and only flush events are modelled.

## Findings

| source | as written | input that shows it | evidently intended | confidence | as-written member | corrected member |
|---|---|---|---|---|---|---|
| MM2/MM2/Buffer.cpp:98-115 | `read_string` checks `position + length <= dataSize` with the `int32` length converted to `size_t`, so a negative length wraps and can pass the check | a string whose length prefix is -4, read with the cursor at the end of 8 bytes of data | a negative length is rejected like any other length that does not fit | not executed | Buffers.NegativeLengthExample | Buffers.ReadString |
| MM2/MM2/Buffer.cpp:117-155 | `write_string` casts the length to `int32` with `static_cast` and passes that count to `write_bytes`. A length of 2^32 or more is written truncated modulo 2^32. A cast length below 0 becomes a huge `size_t` whose sum with the cursor wraps, so the capacity check can pass and the copy runs past the allocation | a string of 2^32 + 5 bytes, written and read back as its first 5 bytes; or a string of 2^32 - 1 bytes, whose cast length is -1 | a string whose length does not fit in `int32` is refused, as a too-large buffer is | not executed | Buffers.TruncatedStringExample | Buffers.WriteString |
| MM2/MM2/Buffer.cpp:305-393 | an announced frame length below 4 is not checked. Length 0 leaves nothing allocated, which later calls read as "size not yet known", so the chunk loop never advances. Lengths 1 to 3 wrap `m_bufferSize - m_position` and copy past the allocation | the chunk `[0,0,0,0,7]`; or a prefix announcing 2 followed by more bytes | an announced length below 4 is rejected as a malformed frame | not executed | Framing.ZeroLengthExample | Framing.ShortLengthRejected |
| MM2/MM2/Socket.cpp:385-391 | every socket marshals its flush under the single key `SOCKET_QUEUE_WRITE`, so when two sockets on one loop write before the loop runs, only the first socket's flush is queued | two connected sockets on one loop each write one buffer, then the loop drains | every write is flushed by the next drain, for instance with a key per socket | not executed | Loops.SharedKeyStrandsWrite | Loops.DrainFlushesAll |
