# libft in Dafny

A Dafny model of the parts of libft, and of the parsers its examples bring along,
whose correctness is not visible from one function, with proofs of what they promise.
`dafny verify dfyconfig.toml` checks everything.

- **Lock-free stack** (`LockFreeStack`, `StackObject`): every interleaving of any
  number of threads over a counted head with nodes used again, shown linearizable;
  and the operations on the heap when no other thread runs.
- **protobuf-c** (`Varints`, `RangeLookup`, `Messages`, `PackArray`, `PackBuffer`,
  `Unpacking`, `ScanLoops`, `Slabs`, `UnpackLoops`, `TwoPasses`, `RoundTrip`,
  `ByField`, `Records`, `WireFormat`): the encoding as a function, both packers
  against it byte for byte, the two-pass unpacker with its loops and arrays against a
  recursive one, what that one means for every input, field by field, and the round
  trip.
- **Frames and streams** (`Vecs`, `ZoneLayout`, `MemoryPool`, `Streams`,
  `FrameSystem`): the pool, its zones and the streams' write queue and read slot as
  objects on the heap; one holder for every frame, delivery in order, no lost
  wake-up, bytes received handed up in order, and reclaiming of zones only after they
  have been idle.
- **SOCKS** (`SocksSpec`, `SocksAddresses`, `Socks`, `SocksExchanges`): a byte-wise
  description of SOCKS 4, 4A and 5 (sections 3, 4 and 5 of RFC 1928), the parser with
  its growing frame, which does the same however the bytes arrive, and the texts of
  addresses, read back.
- **HTTP** (`HttpSpec`, `HttpInvariant`, `HttpParser`, `HttpLane`, `HttpSteps`,
  `HttpMachine`, `HttpCount`, `HttpWitnesses`, `HttpLength`, `HttpChunks`,
  `HttpRuns`, `HttpNames`, `HttpValues`, `HttpConnection`, `HttpMethods`,
  `HttpTargets`, `HttpLines`, `HttpHeaders`, `HttpMessages`, `HttpExchanges`): a
  byte-wise description of http_parser; the loop with its marks, inner loops, jumps
  and count, which is exactly a walk over single bytes with one more bit of state;
  and when that walk and the byte-wise parser differ, with whole requests on which
  they do.  What the byte-wise parser does with whole messages is said in terms of
  the messages: which names, words, methods and targets it knows, and how headers
  frame the body.  Chunked bodies (section 3.6.1 of RFC 2616) decode to what was
  encoded.
- **Small ones** (`IpHashMap`, `Base32`): a hash map with pointer-to-pointer chains
  refines a finite map; an unrolled encoder (section 6 of RFC 4648, unpadded) stops
  cleanly at any buffer size.

System calls (`send`, `recv`, SO_ERROR), spurious failures of compare-exchange, the
clock and allocation are arbitrary: parameters, or values chosen without constraint.

## Model

| member | source | states |
|---|---|---|
| LockFreeStack.Linearizable | src/cols/stack.c:37-75 | In every run of any number of pushing and popping threads, with spurious failures and with nodes that are popped, changed and pushed again: the chain from the head is acyclic and holds what a sequential stack holds after the operations in order of effect, and every operation takes effect once, between its call and its reply, with the result it replies |
| LockFreeStack.StepKeepsInv | src/cols/stack.c:37-66 | One step of one thread changes the chain only when its compare-exchange succeeds, by exactly that push or pop; every node stays in the chain or with one owner |
| LockFreeStack.ChainIsUnique | src/cols/stack.c:37-66 | The links determine the chain, so "the" contents of the stack are well defined |
| LockFreeStack.CounterGrows | src/cols/stack.c:37-66 | The counter beside the head never decreases, and it stays the same only while the head does |
| LockFreeStack.NoSwapInBetween | src/cols/stack.c:40-45 | A compare-exchange succeeds only if no other one has succeeded since the thread loaded the head it compares with |
| LockFreeStack.PopReadIsCurrent | src/cols/stack.c:58-65 | When the compare-exchange of a pop can succeed, the next pointer read earlier is still that of the top node, even if nodes were popped and pushed meanwhile |
| LockFreeStack.LockFree | src/cols/stack.c:37-66 | A compare-exchange that does not fail spuriously either puts its new head in place, and its thread goes on to count, or since that thread loaded the head another one has succeeded |
| LockFreeStack.SoloPush | src/cols/stack.c:37-54 | In any reachable state a thread that is not disturbed pushes its node on top in six steps, counts it and is back where it was |
| LockFreeStack.SoloPop | src/cols/stack.c:56-77 | A thread that is not disturbed pops the top node, owns it and counts it off; from an empty stack it answers NULL and counts nothing |
| LockFreeStack.SizeAccounting | src/cols/stack.c:47-77 | In every reachable state the size is, modulo the word, the chain length less the pushes and plus the pops past their compare-exchange that have not counted yet |
| LockFreeStack.QuiescentSizeIsExact | src/cols/stack.c:47-77 | When no operation has still to count, the size is the number of elements exactly when that number fits the word |
| LockFreeStack.SizeCanWrap | src/cols/stack.c:47-77 | A run at whose end the stack is empty and its size is 2^64 - 1: a pop counts before the push it undoes |
| StackObject.Stack.Push | src/cols/stack.c:37-54 | With no other thread, push puts the node on top, whatever the number of spurious failures |
| StackObject.Stack.Pop | src/cols/stack.c:56-77 | With no other thread, pop takes the top node off, or answers NULL on an empty stack |
| StackObject.Stack.Clear | src/cols/stack.c:21-34 | With no other thread, clear ends, leaves the stack empty, returns the number of nodes there were, and calls back for exactly those nodes, top first |
| Varints.VarintInverse | examples/protobuf/protobuf-c/protobuf-c.c:693-815 | Reading the groups of a varint gives the number it was written for |
| Varints.VarintDelimited | examples/protobuf/protobuf-c/protobuf-c.c:693-815 | A varint delimits itself, whatever bytes follow |
| Varints.Uint32SizeIsLength | examples/protobuf/protobuf-c/protobuf-c.c:259-282 | uint32_size is the length of the varint it predicts, for every 32-bit number |
| Varints.Uint64SizeIsLength | examples/protobuf/protobuf-c/protobuf-c.c:345-374 | uint64_size is the length of the varint it predicts, for every 64-bit number |
| Varints.TagSizeIsLength | examples/protobuf/protobuf-c/protobuf-c.c:234-257 | get_tag_size is the length of the tag whatever wire type is added to it |
| Varints.Uint32Pack | examples/protobuf/protobuf-c/protobuf-c.c:693-717 | The nested tests write exactly the varint at the given place and nothing elsewhere |
| Varints.Uint64Pack | examples/protobuf/protobuf-c/protobuf-c.c:775-800 | The five bytes made of two 32-bit halves and the loop for the rest are the varint of the 64-bit number |
| Varints.Int32Pack | examples/protobuf/protobuf-c/protobuf-c.c:730-749 | A negative int32 is written as the ten-byte varint of its 64-bit form |
| Varints.ZigzagInverse | examples/protobuf/protobuf-c/protobuf-c.c:311-394 | unzigzag undoes zigzag on all signed values of either width, the most negative one included |
| Varints.ParseUint32IsGroups | examples/protobuf/protobuf-c/protobuf-c.c:2239-2256 | The five-byte shift-and-or reads the number modulo 2^32, however long the varint is |
| Varints.ParseUint64 | examples/protobuf/protobuf-c/protobuf-c.c:2287-2306 | The loop reads the number modulo 2^64 from up to ten bytes |
| RangeLookup.IntRangeLookup | examples/protobuf/protobuf-c/protobuf-c.c:1879-1917 | The binary search over runs of field numbers answers what a linear search over the numbers answers, found or not |
| Messages.MessageSizeIsLength | examples/protobuf/protobuf-c/protobuf-c.c:638-670 | For every well-formed message, nested ones included, get_packed_size is the number of bytes of its encoding |
| WireFormat.VarintIsShort | examples/protobuf/protobuf-c/protobuf-c.c:693-815 | A varint marks every byte but its last, and has no byte too many: its last byte is zero only for the number zero |
| WireFormat.ZigzagIs | examples/protobuf/protobuf-c/protobuf-c.c:311-394 | 0, -1, 1, -2, ... become 0, 1, 2, 3, ..., in either width |
| WireFormat.FourLittle | examples/protobuf/protobuf-c/protobuf-c.c:2272-2290 | A 32-bit fixed number has its least significant byte first; EightLittle: a 64-bit one is two of these, the low one first |
| WireFormat.SampleBytes | examples/protobuf/protobuf-c/protobuf-c.c:1367-1405 | The bytes of one message with a number, a text, a nested message, a packed array and an unknown field, written out |
| PackArray.TagPack | examples/protobuf/protobuf-c/protobuf-c.c:984-1003 | The packed field number with the wire type or-ed into its first byte is the varint of the tag |
| PackArray.ValuePack | examples/protobuf/protobuf-c/protobuf-c.c:1005-1068 | Each value is written as its encoding, a nested message one byte ahead and then moved behind its length |
| PackArray.InsertLength | examples/protobuf/protobuf-c/protobuf-c.c:955-982 | A payload that stands a guessed distance ahead ends up right behind its length, although the move overlaps |
| PackArray.GuessIsCloseEnough | examples/protobuf/protobuf-c/protobuf-c.c:1250-1340 | For every packed field the length prefix guessed from the least possible payload is right or one byte short, so the assert holds |
| PackArray.PackedPack | examples/protobuf/protobuf-c/protobuf-c.c:1250-1340 | The packed field is written as tag, length and payload, whether or not the payload had to be shifted |
| PackArray.MessagePack | examples/protobuf/protobuf-c/protobuf-c.c:1367-1405 | pack writes exactly the encoding, in place, reports its length, and changes no other byte |
| PackBuffer.MessageToBuffer | examples/protobuf/protobuf-c/protobuf-c.c:1821-1867 | pack_to_buffer appends exactly the byte string pack writes, and reports its length whenever that is below 2^32 |
| PackBuffer.AnnouncedIsLength | examples/protobuf/protobuf-c/protobuf-c.c:1794-1801 | The reported length is the true one exactly when no repeated field that is not packed has 2^32 bytes or more, whose 32-bit sum wraps |
| PackBuffer.SimpleBuffer.Append | examples/protobuf/protobuf-c/protobuf-c.c:185-215 | The growing buffer keeps its contents and appends the bytes |
| ScanLoops.ParseTagAndWiretype | examples/protobuf/protobuf-c/protobuf-c.c:1920-1952 | The tag is assembled without its wire-type bits and equals the quotient of the varint by eight; a tag longer than five bytes is an error |
| ScanLoops.ScanLengthPrefixedData | examples/protobuf/protobuf-c/protobuf-c.c:1962-1988 | For any bytes: a length-delimited member ends where the 32-bit sum of its prefix and the declared length says, or is an error; where the sum does not wrap, that is where the prefix says |
| ScanLoops.WrapMatters | examples/protobuf/protobuf-c/protobuf-c.c:1983-1987 | The wrapping sum is taken for a length exactly when the sum exceeds 2^32, and then the member ends inside its own prefix |
| ScanLoops.MaxB128Numbers | examples/protobuf/protobuf-c/protobuf-c.c:1991-2000 | Counts the bytes that end a varint |
| ScanLoops.CountPackedElements | examples/protobuf/protobuf-c/protobuf-c.c:2195-2236 | Counts the elements of a packed payload by type, or refuses it |
| ScanLoops.ScanMembers | examples/protobuf/protobuf-c/protobuf-c.c:2919-3055 | The scan loop delimits the members as the recursive scan does, counts the elements of each repeated field and the unknown fields, marks the required fields seen, and fails on exactly the same inputs |
| Slabs.SlabList.Push | examples/protobuf/protobuf-c/protobuf-c.c:3010-3040 | The doubling slabs take members up to the capacity of the slab table and hold them in the order they came |
| Unpacking.PackedCountIsExact | examples/protobuf/protobuf-c/protobuf-c.c:2195-2236 | Whatever packed payload parses, it has exactly the number of elements the scan counted |
| UnpackLoops.ParsePackedRepeatedMember | examples/protobuf/protobuf-c/protobuf-c.c:2580-2705 | The element loops write the elements of the payload into the array behind those already there, never past the counted room, or fail where the recursive parse fails |
| UnpackLoops.UnpackMessage | examples/protobuf/protobuf-c/protobuf-c.c:2859-3149 | On inputs shorter than 2^32 bytes without a declared length that wraps, unpack computes the recursive parse, of which UnpackIsByField says for every input what it means, and every write into an array lies within the room its count made |
| ByField.UnpackIsByField | examples/protobuf/protobuf-c/protobuf-c.c:2859-3149 | Unpacking, on every input, in terms of each field by itself: it fails exactly when the bytes cannot be delimited, there are too many members, a required field without a default has none, or a member of some field cannot be read; else the slot of each field is what its own members, or those of its oneof, come to, whatever stands between them |
| ByField.RequiredFilled | examples/protobuf/protobuf-c/protobuf-c.c:3089-3096 | A message that unpacks has a value in the slot of every required field |
| ByField.MissingFails | examples/protobuf/protobuf-c/protobuf-c.c:3089-3096 | Without a member for a required field that has no default, unpack answers NULL; EmptyLacksRequired: so it does for no bytes at all and one required int32 |
| ByField.LastCounts | examples/protobuf/protobuf-c/protobuf-c.c:2339-2471 | Of several occurrences of a singular field that is no message the last one counts, and without any the default |
| ByField.LastOfOneof | examples/protobuf/protobuf-c/protobuf-c.c:2473-2529 | Of all members of a oneof the last one counts, and every other field of the oneof is clear |
| ByField.ElementsInOrder | examples/protobuf/protobuf-c/protobuf-c.c:2546-2705 | A repeated field holds the elements of its members in order: of a length-delimited one of a packable type those packed in it, declared packed or not, of any other its one value |
| ByField.WrongWireFails | examples/protobuf/protobuf-c/protobuf-c.c:2339-2471 | A member of a field that is not repeated and no bool, under another wire type than its own, makes unpacking fail |
| ByField.PackedReads | examples/protobuf/protobuf-c/protobuf-c.c:2580-2705 | A packed payload is read piece by piece: chunks of four or eight bytes, bools of one byte 0 or 1, or varints of at most ten bytes; anything else is refused |
| ByField.NumberReads | examples/protobuf/protobuf-c/protobuf-c.c:2239-2306 | The number of a member is its varint modulo 2^32 or 2^64, in the range of the type, and unzigzagged where the type asks for it |
| Records.ScanExactly | examples/protobuf/protobuf-c/protobuf-c.c:2919-3055 | A string is scanned into given members exactly when it consists of their records, one after the other: a key of at most five bytes, wire type 0, 1, 2 or 5, and the data that type asks for |
| TwoPasses.TwoPassesAgree | examples/protobuf/protobuf-c/protobuf-c.c:2919-3125 | On success each repeated field holds exactly the total its members were counted for, and the unknown fields are as many as counted |
| TwoPasses.UnpackPacked | examples/protobuf/protobuf-c/protobuf-c.c:2859-3149 | The unpacking loops give back every well-formed message from its packed bytes |
| RoundTrip.ScanFindsMembers | examples/protobuf/protobuf-c/protobuf-c.c:2919-3055 | The scan of a packed message finds the members it was written as, in order |
| RoundTrip.TooManyMembers | examples/protobuf/protobuf-c/protobuf-c.c:3010-3040 | A well-formed message with more unknown fields than the slabs hold packs, and its bytes do not unpack |
| RoundTrip.MessageRoundTrip | examples/protobuf/protobuf-c/protobuf-c.c:2859-3149 | For every schema and well-formed message (required, optional, oneof, repeated, packed, nested, unknown fields) unpacking the bytes of pack (lines 1367-1405) gives the message back exactly when its members fit the slabs of the scan, and fails otherwise |
| MemoryPool.Zone.Borrow | src/mempool/zone.c:111-153 | A zone lends the head of its free list, reset, or nothing when the list is empty |
| MemoryPool.Pool.Borrow | src/mempool/pool.c:61-130 | The first frame of the first zone of the chain that has one is lent; when no frame is idle, the first frame of a new zone is, of 16 frames or of 2045; NULL exactly when no frame is idle and the last zone was made before, or there are two, or mmap refuses; all counters follow |
| MemoryPool.OutForGood | src/mempool/pool.c:94-99 | With the last zone made and no frame idle, every further borrow fails, whatever mmap would do, and the pool stays as it is |
| MemoryPool.ShrinksForGood | src/mempool/zone.c:163-168 | Reclaiming the zone of 2045 frames leaves last_zone set: with the 16 frames of the first zone lent, borrowing fails although mmap would succeed |
| MemoryPool.Pool.Return | include/ft/mempool/pool.h:43-97 | A returned frame is idle again, once; zone and pool counters follow; no other frame changes hands |
| MemoryPool.Pool.AllocDefault | src/mempool/zone.c:157-172 | NULL exactly when mmap refuses or there are two zones; else a first zone of 16 frames for good, then one freeable zone of 2045, which sets last_zone |
| MemoryPool.Pool.Heartbeat | src/mempool/pool.c:140-189 | A heartbeat deletes exactly the zones that expire and keeps the others in order; a deleted zone has been wholly idle at every moment since a heartbeat more than the timeout ago; no lent frame goes away. Each freeable zone without a frame out that waited for it has its clock started, now + timeout, and no other clock is touched; so a freeable zone that has been idle since an earlier heartbeat, more than the timeout ago, is no longer in the chain |
| MemoryPool.TwoBeats | src/mempool/pool.c:162-186 | A freeable zone whose last frame has just come back is gone after two heartbeats more than the timeout apart |
| MemoryPool.Pool.TotalIsLive | src/mempool/zone.c:69-69 | The pool's total is the number of frames of its live zones exactly as long as no zone was deleted |
| MemoryPool.Pool.CountAvailableFrames | src/mempool/pool.c:192-203 | The sum over the chain is the number of frames nobody holds |
| MemoryPool.Pool.Fini | src/mempool/pool.c:31-49 | Tearing the pool down aborts exactly when some frame is still lent |
| ZoneLayout.LayoutIsSound | src/mempool/zone.c:78-108 | For every frame count the header and descriptors end before the data, every frame's data is page-aligned and inside the allocation, and the allocation is whole pages |
| ZoneLayout.FitHugePage | src/mempool/zone.c:215-228 | The countdown ends at the largest frame count whose allocation fits the huge page |
| Vecs.AdvanceConsumes | include/ft/mempool/vec.h:48-55 | Advancing a vector takes a prefix off the bytes the frame still holds |
| Vecs.AppendVec | src/mempool/frame.c:84-126 | For any number of vectors, a full frame included: a vector that would reach its descriptor is refused, unless the descriptors leave no room at all, where it is let in and stopped by the assert; otherwise it begins where the last one ends and data and descriptors stay apart |
| Vecs.CreateVec | src/mempool/frame.c:55-82 | The same, at any offset; data and descriptors stay apart exactly when the older vectors end below the new descriptor too |
| Vecs.CreateMayOverlap | src/mempool/frame.c:55-82 | A second vector, even an empty one, is let into the last bytes of a simple frame |
| Vecs.ReceiveExtends | include/ft/mempool/vec.h:48-55 | When no two vectors share memory, bytes received into one, with nothing yet in those ahead, are the end of all the frame has taken in |
| Vecs.FrameLength | src/mempool/frame.c:41-53 | The sum of the lengths of the vectors is the number of bytes the frame still holds |
| Streams.Stream.Write | src/sock/stream.c:1142-1177 | A frame is accepted exactly when the queue is open; sent bytes and queued bytes together are the payloads accepted so far, in order, whatever send answers; the stream stays awake; an accepted end-of-stream closes the queue, and stays there until it is consumed; a stream that is ready sends the frame at once, as Drain does, and one that is not sends nothing yet |
| Streams.Stream.Drain | src/sock/stream.c:906-1111 | Every answer of send is recorded: the bytes sent grow by the sum of the positive ones, all answers but the last are whole, and the loop stops with frames left exactly because the last answer took less than it was offered, nothing, or failed, or because max_write_loops + 1 rounds were made, one for each vector and one for the end of the stream; data at the head is sent, the end of the stream at the head is consumed, frames leave the queue front to back, and the stream fails exactly at an error that is not EAGAIN |
| Streams.Stream.Finish | src/sock/stream.c:934-972 | Consuming the end-of-stream frame empties the queue for good; the stale tail pointer is never written through afterwards, and the queue length stays one too high |
| Streams.Stream.OnWriteEvent | src/sock/stream.c:1114-1140 | A write event sends as Drain does: a socket that takes all it is offered leaves the queue empty when it has no more vectors than rounds; it keeps order, counts and wake-up, so a nonempty queue of a stream without error waits for an event that is watched |
| Streams.Stream.OnConnectEvent | src/sock/stream.c:415-470 | The connect event keeps the same invariants, leaves the connecting state exactly when SO_ERROR reports no error, and then sends as a write event does |
| Streams.Stream.WriteShutdown | src/sock/stream.c:1179-1200 | Shutting writes down accepts no byte and closes the queue with an end-of-stream frame that is queued or consumed, and fails exactly when the queue is open and no frame can be borrowed for it |
| Streams.Stream.OnReadEvent | src/sock/stream.c:608-860 | Every answer of recv is recorded: the bytes received grow by the sum of the positive ones, and reading stops exactly because an answer did not fill its vector (then the read side is shut down at zero or an error, and else waits for more), because the delegate wants no more, no frame is to be had, or max_read_loops rounds were made. Whatever recv answers, with frames of the pool or of get_read_frame, and whatever the delegate does: all bytes received so far have been handed to the delegate in order, each once, but for the last bytes of the frame in the slot, and with partial reads at once |
| Streams.Stream.Receive | src/sock/stream.c:655-815 | recv stores at the position of the current vector and nowhere else, and what it stored is the end of what the frame has taken in |
| Streams.Stream.ReadShutdown | src/sock/stream.c:534-606 | The delegate is handed the frame of the slot with what it holds, if it holds anything, and then an end-of-stream frame, which is the frame of the slot if that was empty; the end is not told exactly when a frame is needed and none can be borrowed, and then reading is paused; no byte received stays unseen |
| Streams.Stream.Fini | src/sock/stream.c:312-369 | Afterwards the stream holds no frame at all |
| FrameSystem.Step | src/sock/stream.c:312-1177 | Any operation of any stream, the user or the pool keeps the pool and all streams consistent |
| FrameSystem.Open | src/sock/stream.c:74-249 | A new stream joins the pool and the other streams consistently |
| FrameSystem.OneHolder | include/ft/mempool/pool.h:43-97 | In a consistent system every frame is in exactly one place: its own zone's free list, one stream's queue, one stream's read slot, or the user's hands |
| SocksSpec.Version4 | src/proto/socks.c:189-283 | A version 4 request, of any command, causes nothing before its last byte, and that byte the one request, with the address and port encoded |
| SocksSpec.Version4A | src/proto/socks.c:189-283 | The same for version 4A, with the host name, of which at most 255 bytes are kept |
| SocksSpec.Version5Exchange | src/proto/socks.c:442-592 | The greeting of version 5 is answered, and nothing more happens until the last byte of the request, of any command, makes it |
| SocksSpec.Negotiation | src/proto/socks.c:442-477 | The answer to the greeting selects method 0 exactly when it is offered |
| SocksSpec.FeedConcat | src/proto/socks.c:189-592 | Wherever the bytes are cut in two, the outcome is the same |
| SocksSpec.CStringExact | src/proto/socks.c:57-163 | A host name arrives whole exactly when it fits and holds no NUL |
| SocksAddresses.CStringIs | src/proto/socks.c:57-163 | What is kept of a name is its longest start that holds no NUL and fits |
| SocksAddresses.DottedReads | src/proto/socks.c:85-104 | The text of a version 4 address, read back: the decimal numbers between its dots, without leading zeros, are the four bytes of the request, in order |
| SocksAddresses.ColonsReads | src/proto/socks.c:115-132 | The text of a version 6 address, read back: the groups of four hexadecimal digits between its colons are the sixteen bytes, in order |
| SocksAddresses.RequestComesTo | src/proto/socks.c:57-186 | A request to connect with a nonempty host is handed to the delegate, and refused only if that refuses it; any other is refused, with eight bytes 0, 91, 0, ... and the end of writing |
| Socks.Parser.DelegateRead | src/proto/socks.c:286-359 | The delegate's read callback, with its fields, vectors and growing frame, does what the phase of the byte-wise parser asks for |
| Socks.Parser.ReadAll | src/proto/socks.c:189-592 | However recv cuts the input, the parser ends where the same bytes fed one by one would, with the same events in the same order |
| SocksExchanges.StuckExactly | src/proto/socks.c:567-583 | The parser gets stuck on exactly the inputs that hold, in an authorized version 5 connection and behind complete requests, a request with address type 3 and length byte 0 |
| SocksExchanges.EmptyNameIsStuck | src/proto/socks.c:567-583 | Such an input, of eight bytes |
| SocksExchanges.FitsExactly | src/proto/socks.c:189-592 | Of all inputs, those that fit the frame at every byte are exactly the ones that neither name an empty host in version 5 nor, in version 4, have a user id of more than 20423 bytes, or together with the host name of version 4A more than 20406 |
| SocksExchanges.LongUserOutgrows | src/proto/socks.c:255-258 | A user id longer than that outgrows the frame |
| SocksExchanges.Serve | src/proto/socks.c:286-592 | The same as ReadAll for exactly the inputs of FitsExactly |
| SocksExchanges.Serve4 | src/proto/socks.c:85-91 | A version 4 request byte by byte, however it is cut: the host of its one connect has the four octets of the request between its dots, the port is 256 times the first of its bytes plus the second, and any command but 1 is refused |
| SocksExchanges.Serve4A | src/proto/socks.c:76-83 | A version 4A request, whose address is 0.0.0.x: the host of its one connect is the name sent, cut to 255 bytes, of type D; no name and any command but 1 are refused |
| SocksExchanges.Serve5 | src/proto/socks.c:442-592 | Any version 5 exchange is answered, and makes the one request of its last byte |
| SocksExchanges.Serve5Four | src/proto/socks.c:98-104 | For a version 4 address: type 4, and the octets of the request between the dots of the host |
| SocksExchanges.Serve5Six | src/proto/socks.c:115-132 | For a version 6 address: type 6, and eight groups with the sixteen octets of the request |
| SocksExchanges.Serve5Name | src/proto/socks.c:106-113 | For a host name: type D, and the name, cut to 254 bytes; one that begins with NUL is refused |
| SocksExchanges.Greet5 | src/proto/socks.c:442-477 | A greeting is answered with method 0 if that is offered, and else with 255 and the end of writing |
| SocksExchanges.ServeOther | src/proto/socks.c:286-359 | Input that does not begin with 4 or 5 stops reading and writing, and causes nothing else |
| HttpSpec.RankFalls | examples/http_server/http_parser.c:700-1880 | Each reexecute jump leads to a state of lower rank, so a byte is looked at finitely often |
| HttpSpec.RunConcat | examples/http_server/http_parser.c:634-2091 | Running over two strings one after the other is running over both: splits do not matter byte by byte |
| HttpInvariant.RunKeeps | examples/http_server/http_parser.c:1882-2041 | In every reachable state the asserts on flags and content_length hold, and the header matchers stand in states their switches know |
| HttpInvariant.DigitFits | examples/http_server/http_parser.c:1565-1995 | One more digit below the conservative limit neither wraps 64 bits nor meets the ULLONG_MAX sentinel |
| HttpLength.LengthRun | examples/http_server/http_parser.c:1565-1590 | A Content-Length of any digits, with the blanks the code skips, is accumulated to the number it stands for, and refused exactly when that exceeds ULLONG_MAX - 6 |
| HttpLength.LengthExactly | examples/http_server/http_parser.c:1460-1590 | Of all strings, a Content-Length is taken exactly when it is the first of the message, holds digits and blanks, begins with a digit and does not exceed the limit |
| HttpNames.NameMeans | examples/http_server/http_parser.c:1248-1425 | Over a header name in any letter case the parser stands at Content-Length, Transfer-Encoding, Connection or Upgrade exactly when the name in lower case is content-length, transfer-encoding, connection or proxy-connection, or upgrade |
| HttpNames.NameExactly | examples/http_server/http_parser.c:1248-1425 | A string is taken for a header name exactly when it is nonempty and consists of token characters |
| HttpValues.EncodingFolds | examples/http_server/http_parser.c:1593-1666 | A Transfer-Encoding is matched, and its flag set, exactly when it is chunked in any letter case and then nothing but spaces |
| HttpValues.FoldedLine | examples/http_server/http_parser.c:1708-1716 | A folded header line keeps nothing of what its first part was taken for, but for the place behind a comma; a folded Content-Length is refused |
| HttpConnection.ConnectionRun | examples/http_server/http_parser.c:1467-1683 | A Connection header, of any value, leaves the flags that its elements between commas give, read from the left |
| HttpConnection.RegularList | examples/http_server/http_parser.c:1603-1683 | In a list whose elements all begin with a token character other than the underscore, and none of which is a proper start of keep-alive, close or upgrade, each of these words sets its flag exactly when it is one of the elements, in any letter case and with spaces around it |
| HttpConnection.CommaIsLost | examples/http_server/http_parser.c:1622-1658 | A list with the element close that does not set the flag: the comma behind the c before it is taken for a letter that does not fit |
| HttpConnection.TabStops | examples/http_server/http_parser.c:1603-1619 | Behind a comma and a tab no word is found any more, although the code means to skip the tab: it has been changed by LOWER |
| HttpMethods.MethodExactly | examples/http_server/http_parser.c:954-1051 | Of all strings without a space, and in front of one, exactly the 33 methods are let through, and the method found is the one sent |
| HttpTargets.TargetExactly | examples/http_server/http_parser.c:487-620 | Of all strings without a space or line end, and in front of a space, exactly these are let through as a target: visible characters behind a slash or asterisk; letters, ://, a server part without two at-signs in a row, and visible characters from its first slash or question mark on; for CONNECT such a server part alone |
| HttpLines.RequestLineRun | examples/http_server/http_parser.c:954-1246 | A request line of any method, target and version up to 999: the parser knows the method and the version, has told the target, and stands at the headers |
| HttpLines.DigitsRun | examples/http_server/http_parser.c:1186-1235 | A number of a version or status code is read for what its digits say, and refused exactly above 999 |
| HttpLines.StatusLineRun | examples/http_server/http_parser.c:758-952 | A status line, with any reason: the parser knows the version and the code, has told the reason, and stands at the headers |
| HttpHeaders.LineRun | examples/http_server/http_parser.c:1248-1773 | A header line, of any name and value: it is refused, or changes what the parser remembers exactly as its name and value say |
| HttpHeaders.EffectsRefuse | examples/http_server/http_parser.c:1468-1590 | A block of headers is refused exactly when it gives a second Content-Length, or one that is not digits and blanks beginning with a digit, or exceeds ULLONG_MAX - 6 |
| HttpMessages.BlockRun | examples/http_server/http_parser.c:1248-1880 | A header block, of any headers: whether it is refused, and whether nothing follows, a body of the announced length, chunks, a body up to the end of the connection, or another protocol, is decided by its headers, the status code and the method alone; both framings at once are refused |
| HttpMessages.HeadersFrame | examples/http_server/http_parser.c:1775-1880 | In any order: a Content-Length header of value n frames a body of n bytes, chunked frames chunks, both are refused; with neither, a request ends at the empty line, and a response goes on to the end of the connection unless its code is 1xx, 204 or 304 |
| HttpMessages.HeadersPersist | examples/http_server/http_parser.c:2117-2137 | When no Connection list breaks a word off, the connection stays, from version 1.1 on, exactly when no list says close, and before that exactly when one says keep-alive |
| HttpMessages.RequestRun | examples/http_server/http_parser.c:954-1880 | A request from its first byte to the end of its headers: all that is told, and where the parser stands; Content-Length n leads to a body of n bytes, chunked to a chunk size, neither to the end of the message, and the connection stays from version 1.1 on unless a Connection header says close, before that only if one says keep-alive |
| HttpMessages.ResponseRun | examples/http_server/http_parser.c:758-1880 | The same for a response; without a length it goes on to the end of the connection, unless its code is 1xx, 204 or 304 |
| HttpMessages.BodyRun | examples/http_server/http_parser.c:1882-1932 | A body of known length: its bytes are told, and the end of the message, and the parser is ready for the next message or is done |
| HttpMessages.TrailerRun | examples/http_server/http_parser.c:1775-1834 | The headers behind a chunked body end the message whatever they are |
| HttpExchanges.ReceiveRequest | examples/http_server/http_parser.c:634-2091 | A request with a body as long as its headers say, through the parser object and in any cut: everything is told in order, without an error, and the parser is ready or done as the headers ask |
| HttpExchanges.Post | examples/http_server/http_parser.c:1328-1330 | One such request, POST with Content-Length 5 and the body hello |
| HttpMachine.Machine.FieldLoop | examples/http_server/http_parser.c:1298-1425 | The inner loop over a header name does what its bytes do one by one, count included |
| HttpMachine.Machine.ValueLoop | examples/http_server/http_parser.c:1506-1695 | The inner loop over a header value, with its jump to the line end, does what its bytes do one by one in the walk that knows of the jump, for all input: the bytes it collects, the byte it refuses, or a count beyond the limit |
| HttpMachine.Machine.ChunkTurn | examples/http_server/http_parser.c:2015-2041 | The jump over chunk data does what its bytes do one by one |
| HttpMachine.Machine.IdentityTurn | examples/http_server/http_parser.c:1882-1913 | The jump over a body of known length, with the second look at its last byte, does what its bytes do one by one |
| HttpMachine.Machine.Dispatch | examples/http_server/http_parser.c:700-2052 | The reexecute chain of one byte leads where the byte-wise parser goes and tells the callbacks the same; a chunk size always begins with nread 1 |
| HttpParser.AtMostOneMark | examples/http_server/http_parser.c:2071-2081 | At loop exit at most one mark is set |
| HttpMachine.Machine.Execute | examples/http_server/http_parser.c:634-2091 | For all input: the error, the parser state, nread and all the callbacks are told are those of a walk over its bytes one by one that keeps the count and remembers only whether an inner loop runs or jumps |
| HttpMachine.Machine.Feed | examples/http_server/http_parser.c:634-2091 | The same for any cut of the input into nonempty pieces |
| HttpCount.PieceExactly | examples/http_server/http_parser.c:152-160 | On input the byte-wise parser accepts, a piece fails, with HPE_HEADER_OVERFLOW, exactly when a header byte has no place within the limit, one more being charged if the piece ends inside a header name or value; else the parser, the callbacks and nread are told exactly |
| HttpCount.PiecesExactly | examples/http_server/http_parser.c:152-160 | The same for any cut: accepted input fails exactly when one of its pieces is too long |
| HttpCount.EveryCut | examples/http_server/http_parser.c:1410-1690 | Accepted input comes through every cut exactly when it comes through byte by byte, exactly when its header bytes fit with those inside names and values counted twice |
| HttpCount.FeedExactly | examples/http_server/http_parser.c:634-2091 | For all input and any cut: all pieces are accepted with no byte hidden exactly when the byte-wise parser accepts the whole and no piece is too long |
| HttpCount.WalkExactly | examples/http_server/http_parser.c:1527-1558 | Where the loop gets through a piece, the byte-wise parser does so exactly when no skipped byte of a header value is one that the check refuses |
| HttpCount.AcceptedHidesNothing | examples/http_server/http_parser.c:1527-1558 | In input that the byte-wise parser accepts no such byte is skipped |
| HttpCount.ValidHidesNothing | examples/http_server/http_parser.c:1506-1558 | Nor in input of header characters only |
| HttpCount.LenientHidesNothing | examples/http_server/http_parser.c:1506-1558 | Nor is any byte that a lenient parser would refuse |
| HttpCount.WorstFitsConcat | examples/http_server/http_parser.c:152-160 | Whether every cut fits is checked section by section: the count starts afresh behind each reset |
| HttpCount.ShortFits | examples/http_server/http_parser.c:152-160 | A piece with room for its bytes and one more is not too long |
| HttpWitnesses.SkipsControl | examples/http_server/http_parser.c:1527-1558 | A whole request, from http_parser_init on, with a control character in a header value: accepted by the loop, refused by the byte-wise parser |
| HttpWitnesses.CutMatters | examples/http_server/http_parser.c:1410-1690 | A whole request with a header name of 40 to 80 KiB: accepted in one piece, HPE_HEADER_OVERFLOW byte by byte |
| HttpChunks.SizeExactly | examples/http_server/http_parser.c:1934-1983 | Of all strings, those taken for a chunk size are the nonempty ones of hexadecimal digits and bytes above 127, read as 0, up to ULLONG_MAX - 16; the accumulator holds their value |
| HttpChunks.SizeRun | examples/http_server/http_parser.c:1934-1983 | Such a string is accumulated to its value, or refused exactly when that exceeds the limit |
| HttpChunks.HighByteIsDigit | examples/http_server/http_parser.c:1942-1972 | The size line 1 and 0x80 announces a chunk of sixteen bytes |
| HttpChunks.ChunkedBody | examples/http_server/http_parser.c:1934-2052 | For every body and chunking, with any numerals and extensions, parsing the encoding gives one header and one completion for each chunk, its bytes between them, and one end of message |
| HttpChunks.BodyIsDelivered | examples/http_server/http_parser.c:1934-2052 | The body callbacks concatenate to the body |
| HttpChunks.BodyFits | examples/http_server/http_parser.c:1994-2052 | However long the body, its encoding comes through every cut exactly when no chunk line is longer than the header limit |
| HttpChunks.ReceiveBody | examples/http_server/http_parser.c:1934-2052 | However an encoded body is chopped, the parser object accepts it and tells the callbacks exactly that, if no chunk line is longer than the header limit |
| IpHashMap.Map.Add | src/cols/iphashmap.c:68-146 | The entry of a known address or a new one; when an allocation fails the map is as before |
| IpHashMap.Map.Get | src/cols/iphashmap.c:148-175 | Finds exactly the entry of the address, or nothing |
| IpHashMap.Map.Pop | src/cols/iphashmap.c:177-219 | Unlinks exactly the entry of the address and hands out its data; the buckets go with the last entry |
| IpHashMap.Map.Clear | src/cols/iphashmap.c:31-41 | Empties the map and releases the buckets |
| IpHashMap.Perform | src/cols/iphashmap.c:31-219 | Over every sequence of operations, whichever allocations fail, the object answers as a finite map from addresses to entries, entry by entry, and count is its size |
| Base32.AlphabetIs | src/base32.c:25-25 | The letters, and then the digits from 2 to 7 |
| Base32.Foobar | src/base32.c:27-104 | foobar is shown as MZXW6YTBOI |
| Base32.DecodeEncoded | src/base32.c:27-104 | Decoding the letters of the encoder gives the bytes it consumed |
| Base32.Round | src/base32.c:36-96 | The eight stages stop at any buffer size with as many bytes as fit and as many letters as they need |
| Base32.Encode | src/base32.c:27-104 | For every input and buffer size: min(size, 5 * buflen / 8) bytes consumed, the letters of exactly those bytes and a NUL written, nothing behind it |

## Findings

Where the code does less than one would expect, with the member that says so.

| member | source | finding |
|---|---|---|
| HttpConnection.CommaIsLost | examples/http_server/http_parser.c:1622-1658 | In a Connection header the comma behind an element that breaks off in the middle of a word is taken for a wrong letter, so the next element is not looked at: c,close does not close. ConnectionRun says for all values what is found, RegularList when that is every word of the list. |
| HttpConnection.TabStops | examples/http_server/http_parser.c:1603-1619 | The test for a tab behind a comma comes after LOWER has turned the tab into a parenthesis, so a tab there ends the search. |
| SocksExchanges.StuckExactly | src/proto/socks.c:567-583 | A version 5 request for a host name of no bytes makes the next read of the stream fail the assert at src/sock/stream.c:654. EmptyNameIsStuck gives the input; StuckExactly says for all inputs when it happens. |
| SocksExchanges.LongUserOutgrows | src/proto/socks.c:255-283 | Version 4 user ids and host names grow a vector without a bound, over the descriptors at the end of the frame. FitsExactly gives the lengths. |
| HttpWitnesses.SkipsControl | examples/http_server/http_parser.c:1527-1558 | The jump to the end of a header value skips the character check of the bytes it jumps over. WalkExactly says for all input when this makes a difference. |
| HttpWitnesses.CutMatters | examples/http_server/http_parser.c:1410-1690 | nread counts a piece that ends inside a header name or value one byte too high, so a header can be too long only because of where it is cut. PieceExactly and EveryCut give the exact conditions. |
| LockFreeStack.SizeCanWrap | src/cols/stack.c:47-77 | The element count can be 2^64 - 1 while the stack is empty, because a pop may count before the push it undoes. |
| RoundTrip.OneTooMany | examples/protobuf/protobuf-c/protobuf-c.c:3010-3040 | A message whose members exceed the slab table packs but does not unpack: 0x7fffff1 unknown fields are too many. MessageRoundTrip gives the exact condition. |
| ScanLoops.WrappedInput | examples/protobuf/protobuf-c/protobuf-c.c:1983-1987 | The sum of a length prefix and the length it declares is 32 bits wide: five bytes that declare 2^32 - 1 more are taken for a member of four. WrapMatters gives the exact condition. |
| PackBuffer.AnnouncedIsLength | examples/protobuf/protobuf-c/protobuf-c.c:1794-1801 | The length reported for a repeated field that is not packed wraps at 2^32. |
| Vecs.FullFrameAborts | src/mempool/frame.c:55-126 | A negative pointer difference is compared as unsigned, so a frame full of descriptors lets one more vector in, and the assert behind the test stops the program. |
| MemoryPool.ShrinksForGood | src/mempool/zone.c:163-168 | The flag last_zone is never cleared, so the pool does not grow again after its large zone was reclaimed. |
| Vecs.CreateMayOverlap | src/mempool/frame.c:55-82 | ft_frame_create_vec checks the new vector only, so the new descriptor may lie on data of an older vector. CreateVec says exactly when it does not. |
| Streams.Stream.Ended | src/sock/stream.c:936-942 | Consuming the end-of-stream frame neither resets the tail pointer nor decrements the queue length; neither is used afterwards. |
| MemoryPool.Pool.TotalIsLive | src/mempool/zone.c:69-69 | Deleting a zone subtracts from the zone's own total, so the pool's total counts every zone ever made. |
| HttpChunks.HighByteIsDigit | examples/http_server/http_parser.c:1942-1972 | The upper half of the table of hexadecimal digits is not initialized and reads as 0, so bytes above 127 pass as the digit 0. SizeExactly says what is taken for a size. |

## Left out

- RoundTrip.MessageRoundTrip: what merge_messages does when a nested message occurs twice is a parameter of the unpacker; packed messages never need it.
- UnpackLoops.UnpackMessage: inputs of 2^32 bytes or more, where counts are truncated to 32 bits, and those with a declared length whose 32-bit sum with its prefix wraps, where the length of a member falls below that of its prefix, are excluded by Fits.
- ScanLoops.ScanMembers: the same inputs are excluded, by ScanFits.
- Messages.MessageSizeIsLength: well-formed are messages whose strings, nested messages and packed payloads have at most 2^32 - 6 bytes and whose repeated fields have fewer than 2^32 elements; the outermost message may have any size; required strings are never NULL, and only required fields have non-NULL default values.
- PackArray.MessagePack: floats and doubles are the bit patterns they are sent as; allocation failure and freeing of messages, services, and look-ups by name are not modelled.
- LockFreeStack.Linearizable: the counter is unbounded and node memory is never unmapped; steps are sequentially consistent.
- MemoryPool.Pool.Heartbeat: mmap, mlock, posix_madvise, erasing pages and low-memory notifications are left out; whether mmap succeeds is a parameter, and time is a real number.
- MemoryPool.Pool.Borrow: the file and line of the last user of a frame, and the frame's address fields, are left out.
- Streams.Stream.Drain: a call that ends at the loop bound is followed by another write event, because the socket stays writable; the TLS paths are left out.
- Streams.Stream.OnReadEvent: get_read_frame gives a frame it has just borrowed from the pool, formatted in any way; that its bytes are the last of the frame is said for frames whose vectors do not share memory.
- FrameSystem.Step: ABORT, a write stop by the user and recovery from errors are left out; callbacks do not call back into the stream.
- Streams.Stream.Write: a frame's data area is a value that only its holder changes; aliasing inside the area is not modelled.
- SocksExchanges.Serve5: whether the delegate accepts is one answer for the whole connection; the end of the stream in the middle of a request and a pool without frames are left out, as is BIND and UDP ASSOCIATE beyond their refusal.
- Socks.Parser.ReadAll: inputs that outgrow the frame or get stuck, exactly those of SocksExchanges.FitsExactly, are excluded; what is then written over the descriptors is not modelled.
- HttpMachine.Machine.Execute: callbacks return 0 and do not pause; the exit for upgraded connections ends the run and counts as not accepting; error codes other than HPE_HEADER_OVERFLOW, and the number of bytes consumed by a failing call, are not distinguished; what a failing call has told the callbacks before it failed is not compared.
- HttpMachine.Machine.Feed: pieces of 2^32 bytes less the header limit or more, where the 32-bit nread wraps within one jump, are excluded.
- HttpChunks.ReceiveBody: the body has no trailer headers, which are HttpMessages.TrailerRun's, and the message does not ask for an upgrade.
- HttpHeaders.LineRun: header lines end with CR and LF and are not folded; a line that is folded, or holds a byte that is refused, is described byte by byte only (HttpValues.FoldedLine, HttpValues.ControlRefused).
- HttpSpec.RunConcat: splitting of URLs into their parts and the error tables of the parser are left out.
- IpHashMap.Map.Clear: the entries still in the buckets are not freed by the source either; the text forms of addresses and loading from a file are left out.
- Base32.Encode: the letter and byte counters are unbounded; in the source they are ints.
- Not modelled at all: dgram.c, listener.c, fd.c, sockaddr.c, daemon.c, context.c, config.c, logging, boolean.c, ini.c, list.c, pubsub.c and the example programs.
