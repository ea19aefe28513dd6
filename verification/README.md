# Game server networking: framing codec, connections, buffer and rooms

This project models the parts of the server that move messages and keep rooms, and proves
what they promise.

- **Framing codec.** A message of up to 10 MB is cut into frames with a 26-byte header and an
  Adler-32. The receiver scans a byte stream that arrives in arbitrary chunks,
  resynchronises on a magic number, and reassembles fragments per message id.
  `FrameProtocolCodec` is a class whose methods change the buffer and the cache in place; they
  are proved against a pure one-pass parser (`Scanner`) and a per-id reassembly step
  (`Reassembly`), and the theorems about messages are proved of those.
- **Connections.** `TcpConnection` and `ClientSession` are classes over a strand of posted
  tasks and a write queue. `Pipeline` joins two of them by a byte stream in each direction and
  states the end-to-end property over every schedule of events; `Numbering` tells what is sent
  from the schedule alone, and `Liveness` shows that everything sent can arrive.
- **`basic_streambuf`.** A compacting, growing array buffer, proved to be a bounded byte queue.
- **Rooms.** Rooms, their registry and the dispatcher's requests, one at a time, and the
  critical sections of room creation interleaved among threads.

| file | contents |
|---|---|
| Bytes, Adler32, Proto, Encoder | byte order, checksum, header layout, `encode` |
| Scanner, Streaming | the stream parser; what cutting the stream into chunks can change |
| Reassembly, Codec | `handleSingleFrame` as a step on one id; `decode` and the codec class |
| Delivery, Interleaving, StaleEntries, History | whole messages: order, loss, corruption, left-over entries, soundness on any input |
| Connection, Session | write queue, session |
| Pipeline, Numbering, Liveness | end-to-end theorems: safety under every schedule, message numbers, arrival |
| Streambuf | the array buffer and the queue it implements |
| Rooms, RoomOperations, RoomRaces, Dispatcher | rooms, registry invariants, concurrent creation, player references |

The property that a reader of the code might expect and that does not hold without a
condition is, in each case, stated with its exact condition:

- A message of type HEARTBEAT does not come back from `decode`, which drops only its header;
  a message whose id still has a cache entry comes back only in some cases
  (`StaleEntries.RoundTripFromAnyCache`). `Delivery.CorruptEnd` shows how such an entry arises.
- Where the stream is cut into chunks can decide which frames are handled, because a pass that
  finds no magic, or a wrong version, drops the whole buffer, even the first bytes of a magic
  at its end. The frames of the next call are unaffected by a cut exactly when nothing is
  dropped, or no magic was found and the dropped bytes do not end in a part of one
  (`Streaming.NextCallExactly`; `Streaming.CutLosesFrame` is a frame lost by a cut). Over two
  more calls a cut can change the frames whenever something is dropped
  (`Streaming.HarmlessExactly`).
- Adler-32 misses some two-byte changes (`Adler32.TwoBytesDetected`).
- A `prepare` that throws may have moved the bytes already; the class documentation does not
  mention it. `Streambuf.StreamBuf.Prepare` says exactly when the contents survive, and
  `Streambuf.FailedPrepareSmears` is a call after which they do not.
- `commit` and `consume` narrow the count to `int`: they move the bytes asked for exactly below
  2^31 (`Streambuf.StreamBuf.Commit`, `Streambuf.StreamBuf.Consume`).
- JOINROOM casts room ids to `int`, so a player may be recorded in a room he is not in.
  `Dispatcher.RequestKeepsExactly` says which requests keep the record right, and
  `Dispatcher.ReferencesBreak` is a run of requests after which it is wrong.

The comment at include/RoomUtils.hpp:10 calls room codes six digits while the code draws from
digits and letters; the model takes any strings.

## Model

| member | source | states |
|---|---|---|
| Adler32.Adler32Update | include/FrameProtocalCodec.hpp:18-27 | the loop computes the running checksum of the data from any 32-bit register value, and none of its 32-bit sums wraps |
| Adler32.UpdateConcat | include/FrameProtocalCodec.hpp:18-27 | checksumming two buffers one after the other, from any register value, equals checksumming their concatenation |
| Adler32.ClosedForm | include/FrameProtocalCodec.hpp:18-27 | from start value 1 the low half is 1 plus the byte sum and the high half n plus the weighted byte sum, both modulo 65521 (sections 2.2 and 9 of RFC 1950) |
| Adler32.NoSmallDivisor | include/FrameProtocalCodec.hpp:19 | 65521 has no divisor between 2 and 255, the possible byte differences |
| Adler32.CancelFactor | include/FrameProtocalCodec.hpp:18-27 | a product of a byte difference and a distance vanishes modulo 65521 only if the distance does |
| Adler32.OneByteDetected | include/FrameProtocalCodec.hpp:18-27 | changing exactly one byte always changes the checksum |
| Adler32.TwoBytesDetected | include/FrameProtocalCodec.hpp:18-27 | changing exactly two bytes leaves the checksum unchanged if and only if the changes cancel and the positions are a multiple of 65521 apart |
| Adler32.MissedChange | include/FrameProtocalCodec.hpp:18-27 | two strings that differ in two positions 65521 apart and have the same checksum |
| Adler32.NearbyChangesDetected | include/FrameProtocalCodec.hpp:18-27 | one or two changed bytes less than 65521 apart are always detected |
| Proto.HeaderRoundTrip | include/proto.h:41-52 | the fields read from a written header are the fields written, whatever bytes follow |
| Proto.HeaderBytesRoundTrip | include/proto.h:41-52 | writing back the fields read from 26 bytes that start with the magic reproduces those bytes |
| Proto.HeaderLayout | include/proto.h:41-52 | every field of a written header at its literal offset, with literal big-endian weights |
| Proto.ReadLayout | include/FrameProtocalCodec.hpp:194-206 | in any 26 bytes, the literal offsets and weights that decode reads each field, the id and the two flag bits from |
| Encoder.Encode | include/FrameProtocalCodec.hpp:52-100 | fails exactly on a message of 0 or more than 10485760 bytes; otherwise yields one buffer per 4096 bytes, each with the magic, version, type, length, flags, id, number, total, checksum and payload at literal offsets |
| Encoder.EncodePart | include/FrameProtocalCodec.hpp:76-97 | one pass of the fragment loop yields the wire form of that fragment, the end fragment carrying the whole-message checksum |
| Encoder.PartHeader | include/FrameProtocalCodec.hpp:78-89 | the 16-bit parameters of createProtoHeader receive values that fit, so length, number and total are exact |
| Encoder.PiecesCoverBody | include/FrameProtocalCodec.hpp:72-97 | the payloads of a message's frames, in order, are exactly its body |
| Encoder.FrameLayout | include/FrameProtocalCodec.hpp:264-286 | the model frame i of a message has that literal byte layout |
| Encoder.LayoutDetermines | include/FrameProtocalCodec.hpp:264-286 | and only those bytes have it |
| Encoder.HeartbeatLayout | include/FrameProtocalCodec.hpp:160-171 | a heartbeat is the magic, 1, 1 and twenty zeros |
| Scanner.NextMagic | include/FrameProtocalCodec.hpp:108-121 | the scan stops at the first magic, and only when there is none anywhere does it find none |
| Scanner.ScanIsParse | include/FrameProtocalCodec.hpp:102-158 | the tokens and the leftover account for every byte once and in order, each token is what its bytes say it is, and nothing more could be taken |
| Scanner.ParseIsScan | include/FrameProtocalCodec.hpp:102-158 | there is only one such account of any byte string, so the parser computes it |
| Scanner.NoStraddle | include/FrameProtocalCodec.hpp:107-130 | since the magic's four bytes are distinct, no match begins inside a magic-free stretch that a magic follows |
| Streaming.LeftoverBound | include/FrameProtocalCodec.hpp:102-158 | what a call leaves in the buffer is a suffix of what it scanned, at most 65560 bytes, and decoding it again takes nothing |
| Streaming.ScanAppend | include/FrameProtocalCodec.hpp:102-158 | if a call does not clear the buffer, decoding its leftover followed by more bytes continues the parse of the concatenation |
| Streaming.AnySplit | include/FrameProtocalCodec.hpp:102-158 | a stream no prefix of which would be cleared parses the same however it is cut into calls |
| Streaming.HarmlessExactly | include/FrameProtocalCodec.hpp:123-136 | whatever two chunks follow, cutting after x leaves the frames handled unchanged if and only if the pass over x takes neither clearing branch (no magic found, or wrong version) |
| Streaming.NextCallExactly | include/FrameProtocalCodec.hpp:107-136 | whatever chunk follows, cutting after x leaves the frames handled unchanged if and only if the pass over x does not clear, or clears for lack of a magic and the dropped bytes do not end in a proper part of one |
| Streaming.ForgottenChangesNothing | include/FrameProtocalCodec.hpp:107-130 | magic-free bytes that do not end in a part of a magic change no frame of whatever follows them |
| Streaming.CutLosesFrame | include/FrameProtocalCodec.hpp:123-127 | 26 zero bytes and a frame: in one call the frame is handled, cut after its first byte it is lost |
| Streaming.PrefixOfUnits | include/FrameProtocalCodec.hpp:104-157 | any prefix of a stream of frames and heartbeats parses to a prefix of them, and the whole stream to all of them |
| Streaming.ChunkIndependence | include/FrameProtocalCodec.hpp:102-158 | a stream of frames (any flags, numbers, checksums) and heartbeats, cut anywhere even inside headers, yields the tokens and leftover of the one-pass parse |
| Streaming.Resynchronises | include/FrameProtocalCodec.hpp:107-130 | a magic-free stretch in front of well-formed units, in one call, is skipped exactly and costs no unit |
| Reassembly.RunConcat | include/FrameProtocalCodec.hpp:148-156 | handling frames in two batches equals handling them in one |
| Reassembly.Projection | include/FrameProtocalCodec.hpp:219-261 | over arbitrary frames, the cache entry and the packets of one id are those its own frames alone would give |
| Reassembly.EffectAt | include/FrameProtocalCodec.hpp:219-261 | what a frame does depends only on earlier frames of its own id |
| Reassembly.FramesKeepOtherEntries | include/FrameProtocalCodec.hpp:219-261 | frames never create, change or remove another id's entry, nor hand on a packet with another id |
| Reassembly.AssembleKeepsEntry | include/FrameProtocalCodec.hpp:220-261 | an entry has 1 to 65535 slots; a surviving entry keeps its slot count; a new one has the creating frame's total |
| Reassembly.RunKeepsCache | include/FrameProtocalCodec.hpp:220-261 | the slot bounds hold for every entry after any run of frames |
| Reassembly.EmptyMeansUncached | include/FrameProtocalCodec.hpp:220-221 | in every reachable cache the emptiness test of line 221 holds exactly when the id was not cached |
| Reassembly.ShortFrame | include/FrameProtocalCodec.hpp:208-217 | an unfragmented frame changes no entry, even under its own id, and is handed on exactly if its checksum is right |
| Reassembly.ShortFramesKeepCache | include/FrameProtocalCodec.hpp:208-217 | any run of unfragmented frames leaves the cache as it was |
| Reassembly.FragmentRejected | include/FrameProtocalCodec.hpp:219-257 | exactly when a fragment raises which of the three exceptions, and when it is taken silently |
| Codec.FrameProtocolCodec.Decode | include/FrameProtocalCodec.hpp:102-158 | buffer, cache and packet list after a call are those of the pure parser on buffer and chunk followed by the frames handled in order |
| Codec.FrameProtocolCodec.HandleSingleFrame | include/FrameProtocalCodec.hpp:194-262 | the cache changes only at the frame's id, as the per-id reassembly step prescribes, with its packet or its exception |
| Codec.JoinParts | include/FrameProtocalCodec.hpp:239-252 | the slots in order, or failure if and only if one of them is empty |
| Codec.DecodeAll | include/FrameProtocalCodec.hpp:102-158 | any number of calls on a codec with an empty buffer amount to the chunked parse and one run over its frames |
| Delivery.EncodedIsArranged | include/FrameProtocalCodec.hpp:76-97 | encode's own order is an admissible arrival order |
| Delivery.MiddleRun | include/FrameProtocalCodec.hpp:220-237 | fragments other than the end one are collected silently in any order, repeated or not, each in its own slot |
| Delivery.TakesEnd | include/FrameProtocalCodec.hpp:238-261 | the end fragment hands on the message if every other fragment has arrived and is rejected otherwise; the entry goes in both cases |
| Delivery.ArrangementStep | include/FrameProtocalCodec.hpp:219-261 | no packet before the final frame; the final frame hands on exactly the message and leaves no entry |
| Delivery.OneMessage | include/FrameProtocalCodec.hpp:194-262 | a message's frames in any admissible order and with repeated fragments deliver it exactly once |
| Delivery.LossContained | include/FrameProtocalCodec.hpp:245-250 | with any earlier fragment missing, the end fragment hands on nothing and removes the entry |
| Delivery.CorruptShort | include/FrameProtocalCodec.hpp:208-213 | a short message with one or two payload bytes changed is rejected |
| Delivery.CorruptMiddle | include/FrameProtocalCodec.hpp:231-236 | a corrupted fragment destroys the entry, and the message is not delivered by what follows |
| Delivery.CorruptEnd | include/FrameProtocalCodec.hpp:253-257 | a corrupted end fragment fails the whole-message checksum, and the filled slots stay in the cache |
| Delivery.CorruptionSilences | include/FrameProtocalCodec.hpp:208-257 | whichever frame of a message has one or two payload bytes changed, the message is never handed on |
| Interleaving.MixedDelivery | include/FrameProtocalCodec.hpp:194-262 | under any interleaving, exactly the messages that arrive whole are handed on, in the order of their final frames, while silent ids add nothing |
| Interleaving.InterleavedMessages | include/FrameProtocalCodec.hpp:194-262 | messages with distinct uncached ids, interleaved arbitrarily, come out once each in the order of their final frames, and the cache is unchanged |
| Interleaving.LossCostsOnlyItself | include/FrameProtocalCodec.hpp:220-251 | a message that lost fragments leaves no packet and no entry and costs the interleaved others nothing |
| Interleaving.CorruptionCostsOnlyItself | include/FrameProtocalCodec.hpp:208-257 | a message with one or two changed payload bytes in one frame is never handed on, and the interleaved others come out unchanged |
| Interleaving.CorruptedEncoding | include/FrameProtocalCodec.hpp:52-257 | with one or two payload bytes changed in any one frame of encode's output, the receiver hands on nothing and no other entry changes |
| Interleaving.LossyEncoding | include/FrameProtocalCodec.hpp:52-251 | with any one frame but the last of encode's output dropped, the receiver hands on nothing and its cache is unchanged |
| Interleaving.EncodedRun | include/FrameProtocalCodec.hpp:52-100 | the frames of one message hand on that message and leave the cache as it was |
| Interleaving.RoundTrip | include/FrameProtocalCodec.hpp:52-158 | encoding a message and decoding its bytes in any chunks, on an empty buffer with its id uncached, hands on exactly it and restores buffer and cache |
| Interleaving.LiteralRoundTrip | include/FrameProtocalCodec.hpp:102-286 | byte strings with the literal layout of a message's frames, concatenated and cut into any chunks, are handed on as exactly that message |
| Interleaving.NeverHeartbeat | include/FrameProtocalCodec.hpp:138-150 | frames that are not heartbeats never yield a packet of type HEARTBEAT |
| Interleaving.InterleavedStream | include/FrameProtocalCodec.hpp:102-262 | interleaved reassembly for byte streams: heartbeats anywhere, any chunking |
| Interleaving.LossyStream | include/FrameProtocalCodec.hpp:102-262 | loss containment for byte streams: heartbeats anywhere, any chunking |
| Interleaving.CorruptedStream | include/FrameProtocalCodec.hpp:102-262 | corruption containment for byte streams: heartbeats anywhere, any chunking |
| Interleaving.GarbageCostsNothing | include/FrameProtocalCodec.hpp:107-130 | a magic-free prefix in the same call changes neither the packets nor the cache |
| StaleEntries.SameCount | include/FrameProtocalCodec.hpp:220-261 | a message sent over a cached entry with as many slots as it has pieces overwrites them all and is delivered |
| StaleEntries.TooMany | include/FrameProtocalCodec.hpp:220-261 | over an entry with more slots, whatever comes out is not the message |
| StaleEntries.TooFew | include/FrameProtocalCodec.hpp:222-251 | over an entry with fewer slots nothing comes out: the first number out of range destroys the entry |
| StaleEntries.RoundTripFromAnyCache | include/FrameProtocalCodec.hpp:52-262 | in any reachable cache, encode then decode hands on exactly the message if and only if its type is not HEARTBEAT and its id is uncached, or it is short, or the entry has as many slots as the message has pieces |
| StaleEntries.SomeDoNotReturn | include/FrameProtocalCodec.hpp:52-262 | a two-piece message over a stale three-slot entry, and a HEARTBEAT message, that do not come back |
| History.AlwaysExplained | include/FrameProtocalCodec.hpp:219-237 | in every reachable state an entry's slots are the latest fragments of its id and number since the frame that created it |
| History.EmittedIsJustified | include/FrameProtocalCodec.hpp:208-261 | every packet has the Adler-32 of its triggering header and is that frame's payload or the in-order concatenation of non-empty latest fragments |
| History.SoundOnAnyInput | include/FrameProtocalCodec.hpp:102-262 | on arbitrary bytes in arbitrary chunks, the packets come one each from a rising sequence of frames that justify them, none of type HEARTBEAT |
| History.ChunksAccounted | include/FrameProtocalCodec.hpp:102-158 | on arbitrary bytes in arbitrary chunks, tokens and leftover are all bytes received, in order, and at most 65560 are kept |
| Connection.TcpConnection.SendBytes | include/TcpConnection.hpp:50-52 | a buffer is only posted; the queue is untouched until the strand runs |
| Connection.TcpConnection.RunPosted | include/TcpConnection.hpp:52-56 | the strand's head runs: a buffer joins the queue and a write starts exactly if the queue was empty |
| Connection.TcpConnection.OnWrite | include/TcpConnection.hpp:86-95 | success removes the front and starts the next write if there is one; failure closes and removes nothing |
| Connection.TcpConnection.DoWrite | include/TcpConnection.hpp:80-85 | starts one write exactly if the queue is non-empty |
| Connection.RunTaskKeeps | include/TcpConnection.hpp:50-57 | running a posted task keeps the single-writer invariant and the sequence of all enqueued buffers |
| Connection.WriteCompletedKeeps | include/TcpConnection.hpp:86-95 | a completed or failed write keeps the single-writer invariant and the sequence of all enqueued buffers |
| Session.ClientSession.SendMessage | src/ClientSession.cpp:20-25 | the counter goes up by one modulo 2^64 even when encode throws; otherwise one buffer per frame is posted, in order, each with the literal layout and the counter's old value as id |
| Session.ClientSession.SendHeartBeat | src/ClientSession.cpp:27-30 | one buffer with the 26 bytes of a heartbeat is posted |
| Session.ClientSession.OnRawDataReceived | src/ClientSession.cpp:52-65 | the chunk is decoded and its packets are posted in order |
| Session.ClientSession.OnRead | include/TcpConnection.hpp:35-48 | a read passes its bytes to the session; an error closes the connection |
| Pipeline.AllDelivered | src/ClientSession.cpp:20-25 | the frames of any messages sent one after the other, even with ids repeated, are handed on as exactly those messages |
| Pipeline.DeliveredIsPrefixOfSent | src/ClientSession.cpp:20-65 | under every schedule of sends, heartbeats, partial, completed and failed writes, closes and reads (one read may complete after a close), each side has delivered a prefix of what the other sent, with the same ids, types and bodies |
| Pipeline.FlushedDeliversAll | src/ClientSession.cpp:20-65 | whenever nothing is left to write, read or deliver, everything sent has been delivered |
| Pipeline.OneWriterAlways | include/TcpConnection.hpp:50-96 | in every reachable state, at both ends, at most one write is in flight, one exactly when the queue is non-empty and no write has failed, and completed, queued and posted buffers are all buffers sent, in order |
| Pipeline.SenderStep | include/TcpConnection.hpp:50-96 | every step keeps the sending half: the network holds the completed buffers and part of the front one |
| Pipeline.ReceiverStep | src/ClientSession.cpp:52-65 | every step keeps the receiving half: what was read has been decoded as if in one chunk |
| Numbering.HistoryOfEnds | src/ClientSession.cpp:20-30 | under every schedule an end's counter is the number of its sendMessage calls modulo 2^64, and the messages sent and the units posted are those of the calls, each message numbered by the calls before it |
| Numbering.NumbersRise | src/ClientSession.cpp:21 | up to 2^64 calls, each message carries the number, type and body of its call, and numbers are distinct and rising |
| Numbering.DeliveredIsPrefixOfCalls | src/ClientSession.cpp:20-65 | under every schedule each side has delivered a prefix of the messages that the other side's calls make |
| Numbering.WireIsScheduled | include/TcpConnection.hpp:50-95 | under every schedule the network holds a prefix of the bytes that the calls and heartbeats make, and all of them when nothing waits to be written |
| Liveness.EverySequenceArrives | src/ClientSession.cpp:20-65 | for any messages and heartbeats, accepted or rejected, and any cutting of the bytes into reads of 1 to 4096, there is a schedule that makes exactly these reads and ends with exactly the messages delivered, in order |
| Liveness.EveryCuttingDelivers | include/TcpConnection.hpp:35-96 | the same from every reachable state in which both sockets are open, for every cutting of the bytes still to be read, without further calls, failures or closes |
| Liveness.EveryStateFinishes | include/TcpConnection.hpp:35-96 | no reachable state with both sockets open is a dead end: one can go on until everything sent is delivered |
| Liveness.FailuresPossible | include/TcpConnection.hpp:65-95 | the schedules include every failure: in every reachable state an end can close, and a write in flight can fail or put any part of its rest on the network |
| Streambuf.StreamBuf.constructor | include/asio/basic_streambuf.hpp:131-141 | an empty queue with the given maximum |
| Streambuf.StreamBuf.Size | include/asio/basic_streambuf.hpp:158-161 | the number of bytes committed and not consumed, never above the maximum |
| Streambuf.StreamBuf.Reserve | include/asio/basic_streambuf.hpp:308-346 | fails exactly when size plus n exceeds the maximum; success loses nothing through compaction and growth; failure leaves the contents copied over themselves, so unchanged if and only if they repeat at the distance copied |
| Streambuf.StreamBuf.Prepare | include/asio/basic_streambuf.hpp:214-219 | fails exactly when size plus n exceeds the maximum; on success there is room for n bytes and the contents are unchanged; after a failure they are unchanged if and only if they repeat at the distance copied |
| Streambuf.StreamBuf.Commit | include/asio/basic_streambuf.hpp:233-238 | moves the put pointer by exactly the smaller of n and the output sequence if and only if that is below 2^31, and then those bytes are appended to the contents |
| Streambuf.StreamBuf.Consume | include/asio/basic_streambuf.hpp:247-254 | moves the get pointer by exactly the smaller of n and the size if and only if that is below 2^31, and then those bytes are removed from the contents |
| Streambuf.StreamBuf.Underflow | include/asio/basic_streambuf.hpp:263-274 | the next byte if there is one, with the contents unchanged and the get area extended to the put pointer |
| Streambuf.StreamBuf.Overflow | include/asio/basic_streambuf.hpp:283-306 | appends the byte; fails exactly when the buffer is full, and then nothing has changed |
| Streambuf.Conservation | include/asio/basic_streambuf.hpp:62-68 | over any run on the bounded queue, consumed bytes followed by the contents are the committed bytes, and size stays within the maximum |
| Streambuf.RunAll | include/asio/basic_streambuf.hpp:131-346 | for every maximum, a run of operations on the buffer none of which commits or consumes 2^31 bytes at once goes through exactly when it does on the bounded queue, and then both agree on contents and consumed bytes |
| Streambuf.AllRepeatExactly | include/asio/basic_streambuf.hpp:321-340 | contents of a given size survive a failing prepare, whatever they are, if and only if they start at the front of the array or lie wholly behind the copy |
| Streambuf.FailedPrepareSmears | include/asio/basic_streambuf.hpp:321-340 | on a buffer of three bytes, one of them consumed, a prepare fails and turns the contents 0, 1 into 1, 1 |
| Rooms.Room.Join | src/Room.cpp:63-74 | admits exactly if the room is in the lobby, has a free place and lacks the player, who is then appended; refuses a running room, a full room and a member, in that order |
| Rooms.Room.Leave | src/Room.cpp:81-99 | removes the player; the owner stays if still present, else the first player becomes owner, and nobody of an empty room |
| Rooms.Room.SetCapacity | src/Room.cpp:117-124 | only the owner, only 2 to 16, and not below the number of players |
| Rooms.Room.StartGame | src/Room.cpp:126-139 | only the owner, once, and only with every player ready |
| Rooms.RoomManager.CreateRoom | src/RoomManager.cpp:20-45 | spends an id for every valid capacity, reserves the first free of five codes, and registers a room with its creator as only member |
| Rooms.RoomManager.ReserveCode | src/RoomManager.cpp:25-36 | the retry loop reserves the first code that is not taken, or fails when all five are |
| Rooms.RoomManager.GetId | src/RoomManager.cpp:47-52 | the id of an issued code, or 0 |
| Rooms.RoomManager.JoinRoom | src/RoomManager.cpp:54-63 | joins a registered room or reports that there is none, changing no other room |
| Rooms.RoomManager.LeaveRoom | src/RoomManager.cpp:65-80 | leaves a registered room and removes it when it has become empty, keeping its code |
| Rooms.RoomManager.SetCapacity | src/RoomManager.cpp:101-110 | changes the capacity of a registered room through its own rules |
| Rooms.RoomManager.StartGame | src/RoomManager.cpp:112-121 | starts a registered room through its own rules |
| Rooms.RoomManager.DissolveRoom | src/RoomManager.cpp:123-131 | removes a registered room for its owner only |
| RoomOperations.RemoveFirstKeeps | src/Room.cpp:84-91 | leaving a duplicate-free list removes exactly that player |
| RoomOperations.JoinsInOrder | src/Room.cpp:63-74 | distinct newcomers up to the capacity of a room in the lobby are all admitted and stand in the order in which they came |
| RoomOperations.FillsUp | src/Room.cpp:63-74 | a new room of capacity c admits its creator and c - 1 others, in order, and the next newcomer finds it full |
| RoomOperations.SuccessionInOrder | src/Room.cpp:172-182 | when owners leave one after the other, the room belongs to the earliest joined of those who remain, and at last to nobody |
| RoomOperations.OthersLeavingKeepOwner | src/Room.cpp:81-99 | somebody else's leaving takes exactly that player and keeps the owner |
| RoomOperations.CreateAnswers | src/RoomManager.cpp:20-45 | createRoom says OK exactly when it registered a room, which it does exactly for a valid capacity and a free code; the room is then under the returned id and code, the first free one, with its creator alone |
| RoomOperations.CodesPersist | src/RoomManager.cpp:20-131 | over any sequence of operations, removals of rooms included, an issued code resolves to the same id for ever |
| RoomOperations.OnlyItsRoom | src/RoomManager.cpp:20-131 | an operation leaves every room but its own as it was |
| RoomOperations.OperationsKeepRegistry | src/RoomManager.cpp:20-131 | after any sequence of operations every registered room is found under its code, is non-empty and duplicate-free, and holds no more players than its capacity in 2..16 |
| RoomRaces.RaceKeepsAgreement | src/RoomManager.cpp:20-45 | under any interleaving of createRoom's critical sections ids and codes determine each other, also for calls in progress, and an issued code resolves to the same id for ever |
| RoomRaces.NoSharedCodes | src/RoomManager.cpp:20-45 | from the empty registry no two rooms share a code, and every room is found under its code |
| RoomRaces.CreateIsARun | src/RoomManager.cpp:20-45 | an uninterrupted createRoom is its critical sections run one after the other |
| Dispatcher.PlayerManager.SetPlayerRoom | src/PlayerManager.cpp:30-33 | records one player's room and no other's |
| Dispatcher.MessageDispatcher.ParseRoomReq | src/MessageDispatcher.cpp:46-112 | registry, records and reply after a create, join or leave request; for a sound registry they are related as in AnswersAreTrue |
| Dispatcher.AnswersAreTrue | src/MessageDispatcher.cpp:46-112 | a join is answered OK exactly if the sender became a member by it, which it does exactly if the room is in the lobby, has a free place and lacks the sender, and below id 2^31 the sender is recorded there; a leave is answered OK exactly if the sender was a member, who is then out and recorded in the lobby; other answers name the reason and change nothing; no other player's record or membership moves |
| Dispatcher.AnswersAlwaysTrue | src/MessageDispatcher.cpp:46-112 | so is every request after any sequence of requests |
| Dispatcher.IssuedCodesPersist | src/MessageDispatcher.cpp:46-112 | over any sequence of requests an issued code resolves to the same id for ever |
| Dispatcher.CastKeeps | src/MessageDispatcher.cpp:89 | the cast of a room id to int and back keeps it exactly below 2^31 or in the range sign extension restores |
| Dispatcher.RequestKeepsExactly | src/MessageDispatcher.cpp:46-112 | a request keeps every CurrentRoomId right if and only if it is not a successful join, or the cast id is 0, the joined room, or a room the player is in already |
| Dispatcher.JoinKeepsExactly | src/MessageDispatcher.cpp:83-91 | the same for a successful join alone |
| Dispatcher.ReferencesBreak | src/MessageDispatcher.cpp:46-112 | a sequence of create and join requests from the empty registry, each create drawing five codes, after which a player is said to be in a room that does not exist |
| Dispatcher.PlayersAreWhereTheySay | src/MessageDispatcher.cpp:46-112 | over every sequence of create, join and leave requests with ids below 2^31, a player whose CurrentRoomId is not 0 is a member of a registered room with that id |

## Left out

- Sockets, timers, signals, logging and hex dumps: the network is a byte sequence that grows while a write is in flight and is read in steps of 1 to 4096 bytes.
- Byte order of the magic: include/FrameProtocalCodec.hpp:274 stores it in host order; the model fixes a little-endian host on both ends. The proofs use only that its four bytes are distinct.
- Threads around one session: src/Server.cpp runs the event loop on one thread, so sendMessage posts its frames without interruption. Interleaved frames of several messages are covered at the codec.
- Pipeline.DeliveredIsPrefixOfSent: sendMessage with type HEARTBEAT is not a step of the system, because such a message does not survive the codec (StaleEntries.RoundTripFromAnyCache); no caller passes that type.
- Liveness.EveryStateFinishes: requires both sockets open, since a closed socket writes nothing more and reads at most the one completion that was waiting; it says that everything can arrive, not that a scheduler lets it.
- Streambuf.RunAll: ends at the first operation that throws, and says nothing about a run in which a commit or consume moves 2^31 bytes or more at once; for those Commit and Consume give the pointers but claim nothing about the contents. A caller that writes commits no more than it has prepared.
- StreamBuf pointers: offsets into the array stand for the get and put pointers, and pointer arithmetic beyond the address space is not modelled.
- Mutexes of a room: Room re-locks a mutex it already holds in several methods; each room operation is one atomic step and nothing is claimed about deadlock. A join that races with the removal of an emptied room is not covered.
- Ownership of a new room: the constructor's parameter hides the owner field, so a new room has no owner until somebody leaves; nothing is claimed about the owner being a member.
- Player objects: a number stands for the object's identity and a map for CurrentRoomId; requests from a session without a player are not modelled.
- Rooms.RoomManager.CreateRoom: room ids are unbounded, so the wrap of the 64-bit counter after 2^64 rooms is not modelled; the codes genRoomCode draws are a parameter.
- Parsing of room requests, JSON replies, broadcasts, room names and passwords, login and the session table: they do not take part in the properties above.
- SessionManager and the other vendored asio headers.
