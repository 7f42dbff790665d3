# Twinkleshine, modelled

Twinkleshine is a single-threaded server that speaks HTTP, Gopher, Finger, Gemini, Spartan, Nex, Text and Guppy. Its
sockets are thin; what is hard is the data structures and state machines between them. This project models those in
Dafny and proves what the C code never writes down. `dafny verify dfyconfig.toml` verifies all of it.

| File | Original | Subject |
|---|---|---|
| Bytes, Values, Rings, LowLevel | utility.c, value.c, ring.c, low_level.c | bytes, two-part values, the growing ring, sending and receiving |
| Frames, Pipeline, Histories, Clients, Server | processor.c, process.c, send.c, client.c, high_level.c | the response pipeline of all clients: a state machine (Pipeline), what its runs owe each client (Histories) and the classes that implement it |
| Guppy, GuppySend, GuppyClients | guppy_processor.c, low_level.c, send.c, receive.c | chunk layout, in-place markers, retransmission, counters in the queue |
| Http, HttpCuts, HttpRoundTrip, HttpFields | http_parser.c, parser.c, tables.c | the request parser, cutting its input, formatting and parsing back, header fields as clients write them |
| Gemini | gemini_parser.c, parser.c | the one-line protocols |
| ClientTable, Random | client.c, random.c | compaction, shuffling, uniform random numbers |
| NexWrap, Links, HtmlPages | nex_processor.c, language.c, generic.c, http_processor.c | line wrapping, links that carry the language, nesting of tags |

How it is built: code that changes state is a class or a method over arrays and rings. Its contract ties it to a function
on sequences or to an event of a state machine, and the theorems are about those. The results of `send`, `read` and `rand`
are parameters, so the theorems hold for all of them. A ring is an array with a begin and a size; its meaning is the byte
sequence `Content()`. `Pipeline.State` records for every client all bytes ever put on the wire, all answers and the log,
so that conservation can be stated; `ServerModel.Server` has rings, scratch buffers and an owner index, and each of its
methods is proved to perform the event of the same kind: accepting, answering, sending, closing, failing, compacting,
and a message that arrives or is received.

## Findings

Where the code does something other than its documentation or its neighbouring code promises, the code is modelled as it
is, an input is given, and the exact condition is proved.

- `client.c:62` compares a finalized client with the owner of the short *request* message, but what it clears is the short
  *response* stream, whoever owns that. This loses bytes in two ways; `Pipeline.LosesExactly` says that there is no third.
  - A client torn down by an error while it owns bytes in the short stream leaves an owner index behind. Until then the
    bytes are harmless, since they are flushed into a ring that nobody sends from, but compaction lets another client take
    the index. That one is sent the bytes and panics when they are popped: this is the "Known to cause panic" of
    `send.c:39`. `Pipeline.AbortedOwnerPanics` is the run; `Pipeline.CompactMisplaces` and `Pipeline.AbortThenCompact` say
    when bytes are misplaced at once.
  - A client finalized while a Guppy message waits for it (its acknowledgement was refused at `receive.c:36`, or it timed
    out) clears the short stream of any other client (`Pipeline.WaitingMessageClears`), exactly if that one is alive and
    owns bytes there (`Pipeline.FinalizeKeeps`). Nobody resets the index of the message then; `client.c:37` says that it is
    NULL during compaction, but it is not, and it is not moved either. So a connection can come to that index, and even its
    normal close clears the short stream of another one (`Pipeline.NormalCloseClears`, `Pipeline.CloseKeeps`).

  A normal close never leaves bytes of its own client behind (`Pipeline.CloseKeeps`, `Pipeline.ClosedOwnsNothing`). Without
  Guppy messages only compaction is to fear (`Pipeline.FifoWithoutMessages`).
- `utility.c:8-18` compares with powers of ten in a size_t. It counts digits right exactly below 10^19, and does not return
  exactly from 17909126868192198656 on (`Bytes.IntLength`). `send.c:78` and `send.c:125` pass it
  first_chunk + chunks.size - 1, which is 2^64 - 1 for the reply that `guppy_processor.c:71-72` makes for an unknown
  resource, with first chunk 0 and no chunks: the server does not come back from sending it (`GuppySend.LastChunkSize`,
  `GuppyClients.SendFront`). All other responses have a sum of at least 1. Fixed replies are not concerned; for plaintext
  clients they are sent at once (`high_level.c:228-241`).
- `http_parser.c:445-460` never counts the promised content length down. A body is recognised as complete only if one
  part holds at least as many bytes as promised. `HttpCuts.CutExactly` says for which cuts the result differs,
  `HttpCuts.BodyInTwoPieces` is the plainest one.
- `http_parser.c:414` refuses a tab in a field value, although `value.c:88` trims tabs and sections 2.2 and 4.2 of RFC
  2616 allow them (`HttpFields.AcceptedBytes`).
- `low_level.c:47` assumes two chunks. The pieces are right exactly for nonempty payloads of at most 2^23 + 1 chunks
  (`GuppySend.CutAgrees`): a lone chunk is given to sendto with one byte too many, and beyond 2^23 + 1 chunks the 32-bit
  product wraps.
- `receive.c:36` accepts an acknowledgement when the text behind the number is *not* CR LF and its terminating zero.
  `GuppySend.Acknowledge` has that test as a parameter, the way round it is.
- `random.c:31` and `random.c:40` step by the bits wanted instead of the bits obtained, so at most one result of rand() is
  used and outcomes above RAND_MAX never come up (`Random.UniformExactly`).
- `generic.c:129-166` ignores what follows the two letters, so `?lang=english` is English, and a later question mark
  cancels an earlier language (`Links.ParseQuery`). The early return of line 153 can never be taken: fewer than two
  letters are no language.

## Model

| member | source | states |
|---|---|---|
| Pipeline.FifoConservation | source/server/process.c:32-63 | over every run of accept, process, send, close, error close, compact and message events of any number of connections and Guppy clients, as long as none of the events loses bytes (a compaction while a dead client owns bytes in the short stream, or finalizing a client for whom a message waits while another live client owns bytes there): for each live client, bytes on the wire, then its short stream, then its own stream, are the concatenation of its answers in the order they were generated; the unsent bytes are what the queue accounts for; the server never panics |
| Histories.EachGetsItsOwn | source/server/process.c:32-63 | told from the events alone, over every such run: each live client was accepted by one of them, and all bytes it was or will be sent are exactly the bodies of the answers to its own requests from then on, in order, through any number of compactions; its log shows a prefix of those requests |
| Histories.ProcessOwes | source/server/process.c:32-63 | answering a request makes its client be owed exactly the body more, behind everything else it is owed; nobody else is owed more or less |
| Histories.SendOwes | source/server/send.c:94-146 | sending moves exactly the next n bytes that the client is owed to the wire |
| Histories.StepHistory | source/client.c:35-57 | an event adds to the history of a client exactly if it answers a request of that client; all others leave it alone, wherever compaction puts the client |
| Histories.Origin | source/client.c:95-115 | every client of the table was there before a run or was accepted by one of its events, and can be followed from there |
| Pipeline.FifoWithoutMessages | source/server/process.c:32-63 | on a server to which no Guppy message comes it is enough that the table is never compacted while a dead client owns bytes in the short stream |
| Pipeline.LosesExactly | source/client.c:35-77 | these are exactly the events that lose bytes: from every state that satisfies the invariant, everything that can follow an event, up to the next one that loses bytes, goes to the right clients if and only if the event is none of them |
| Pipeline.WaitingMessageClears | source/client.c:62-68 | for every nonempty answer a five-event run, without compaction, in which a client fails while a message waits for it, and the unsent bytes of another live client are gone |
| Pipeline.NormalCloseClears | source/client.c:62-68 | for every nonempty answer a run without any such loss, after which the guards of a normal close hold for a connection that took the place of that client, and its close loses the bytes of another live one |
| Pipeline.CompactMisplaces | source/client.c:43-53 | compaction misplaces bytes at once if and only if such an owner is lost and another client moves to its index |
| Pipeline.LostBytesSurface | source/client.c:95-115 | otherwise the bytes go to a client that is accepted later |
| Pipeline.AbortsOnlyLose | source/client.c:59-69 | it is enough for the hypothesis of the runs that no client is torn down by an error while it owns bytes in the short stream that are not cleared with it, and that no client is finalized for whom a message waits while another live client owns bytes there |
| Pipeline.OwnerHasBytes | source/server/send.c:94-100 | if every answer has bytes, the short stream has an owner only as long as it has bytes |
| Pipeline.ClosedOwnsNothing | source/server/high_level.c:164-173 | then the guards of a normal close imply, in every state that such a run reaches, that the client does not own the short stream |
| Pipeline.RunKeeps | source/server/send.c:151-170 | the invariant of all clients, the owner index and the short stream holds in every state of every run without losing events |
| Pipeline.ProcessKeeps | source/server/process.c:32-63 | answering a request keeps the invariant: the short stream of whichever client owned it goes behind that client's own stream before the new answer takes its place |
| Pipeline.SendKeeps | source/server/send.c:65-149 | sending any number of pending bytes, from the short or from the long stream, keeps the invariant |
| Pipeline.TransmitShort | source/server/send.c:94-103 | sending from the short stream never makes popping fail, keeps the accounts of its owner, and leaves the owner with a queued response as long as bytes are left |
| Pipeline.TransmitStream | source/server/send.c:141-146 | the same for a client's own stream |
| Pipeline.AnswerKeeps | source/server/process.c:42-63 | a queued answer adds its bytes and its metadata to the accounts, whichever of the two streams takes it |
| Pipeline.DrainPanics | source/server/send.c:32-61 | popping responses fails if and only if more bytes were sent than the queue accounts for |
| Pipeline.DrainPops | source/server/send.c:32-61 | popping removes whole responses from the front, logs exactly those in order, and the rest accounts for exactly the bytes still unsent |
| Pipeline.QueueEmptyAtEnd | source/server/high_level.c:164-170 | with nothing left to send, the queue is empty if and only if it holds no response without bytes |
| Pipeline.CloseGuards | source/server/high_level.c:160-175 | in every state reached without losing events, a live client with nothing pending passes the checks of a normal close if and only if no answer without bytes is queued |
| Pipeline.CloseKeeps | source/server/high_level.c:164-173 | a normal close keeps the invariant if and only if it does not clear the short stream of another live client; it never leaves bytes behind without an owner |
| Pipeline.FinalizeKeeps | source/client.c:59-77 | finalizing any client keeps the invariant, and everybody's bytes, if and only if it is not the case that a message waits for it and another live client owns bytes in the short stream; it leaves bytes of a dead client in the short stream if and only if there were some or it owned them, and no message waits for it |
| Pipeline.AbortThenCompact | source/client.c:35-77 | after an error close and the next compaction everybody still gets the right bytes if and only if the close did not clear the bytes of another live client, and the client did not own the short stream, or owned no bytes of it, or they were cleared with it, or nobody has taken its index yet |
| Pipeline.AbortedOwnerPanics | source/server/send.c:39 | for every nonempty answer a six-event run in which the second client is sent the bytes of the first, which failed while it owned the short stream, and the server dies popping a response the second client never had |
| Pipeline.CompactKeeps | source/client.c:35-57 | compaction keeps every live client with its accounts and moves the owner index along with the owner, if no owner is lost; the index of a waiting message is not moved |
| Pipeline.LiveOnlyAt | source/client.c:40-57 | where a survivor ends up in the compacted table |
| Pipeline.LiveOnlySource | source/client.c:40-57 | every entry of the compacted table is a live client of the old one, in order |
| Pipeline.LoggedMeansDelivered | source/server/send.c:18-26 | a request is logged only when every byte of its answer is on the wire, and requests are logged in the order in which they were answered |
| ServerModel.Server.ProcessTraffic | source/server/process.c:32-72 | the imperative server with its rings, scratch buffers and global short stream performs exactly the Process event of the state machine; its client is owed exactly the page more, and on record is one more request with the method and resource that its spans select; exactly the request bytes leave the request stream, and a connection that goes on starts with a new request; no other request changes |
| ServerModel.Server.FlushShort | source/server/process.c:32-40 | the short stream ends up behind its owner's own stream, nobody owns it afterwards, and no request stream is touched |
| ServerModel.Server.PlaceAnswer | source/server/process.c:42-72 | the answer becomes the short stream, or follows the client's own stream if that is not empty, and exactly the request bytes leave the request stream |
| ServerModel.AnswerMeans | source/server/process.c:42-63 | what the Process event means: one body and one request more on record, and what everybody is owed |
| ServerModel.Server.Forget | source/server/process.c:65-72 | the request is cleared if the response at the front of the queue keeps the connection alive |
| ServerModel.Server.SendTraffic | source/server/send.c:151-170 | for every outcome of send(): never a panic from a state that satisfies the invariant; exactly the bytes that the outcomes let through, in the order in which the parts are offered, leave the short stream and, once nothing of it is left, the client's own stream; a failed send() is reported if and only if one was called; if the first call takes something, something is sent, and if all take all they are offered, nothing is left; the request is not touched |
| ServerModel.AmountsMatter | source/server/send.c:156-164 | what the amounts of a round mean for a socket that takes something and for one that takes everything |
| ServerModel.SentTwiceOwes | source/server/send.c:156-164 | a round puts the next n + m bytes that the client is owed on its wire |
| ServerModel.Server.SendOrClose | source/server/high_level.c:160-263 | sending, and the error close exactly when a send() that was called failed: that is the Abort event after the sends that succeeded, with the short stream of the client replaced by one of its suffixes; the invariant holds afterwards unless the close clears the short stream of another live client |
| ServerModel.Server.RemoveFinalized | source/client.c:35-57 | the pass over the clients and the owner performs exactly the Compact event, and the table holds exactly the clients that are not dead, in order; the index of a waiting message stays |
| ServerModel.Server.SendShort | source/server/send.c:65-106 | sends from the front of the short stream as much as the outcomes let through and accounts for it; the owner is cleared exactly when nothing is left; after a socket error the clients are as they were and the short stream is a suffix of what it was |
| ServerModel.Server.SendLong | source/server/send.c:110-149 | sends from the front of the client's own stream as much as the outcomes let through, pops it there and accounts for it; after a socket error nothing has changed |
| ServerModel.Server.FinalizeClient | source/client.c:59-77 | an error close or normal close: the client's rings are emptied, the short stream is cleared if the waiting message is for this client, all other clients stay as they are |
| ServerModel.Server.AcceptClient | source/client.c:95-115 | a new client with an empty request at the end of the table, all others and the owner and message indices unchanged |
| ServerModel.Server.AssignMessage | source/server/accept.c:148-157 | a message waits for a client in the table, dead or alive; nothing else changes |
| ServerModel.Server.TakeMessage | source/server/receive.c:43-44 | a message that was received in full waits no longer |
| ServerModel.SendIsSafe | source/server/send.c:102-103 | from a state that satisfies the invariant no amount of sending panics |
| Clients.Client.PopResponses | source/server/send.c:32-61 | the loop computes the specified drain of the queue: same frames left, same unsent size, same log, failure exactly when the specification panics |
| Clients.Client.PopFront | source/server/send.c:36-52 | removes exactly the front frame, logs its request and decodes the header of the next one |
| Clients.PopResponse | source/server/send.c:11-28 | from a queue that encodes a list of frames: yields method and resource of the first one and leaves the encoding of the rest; fails exactly on an empty queue |
| Clients.LoadFront | source/server/send.c:44-51 | the header decoded from the front of the queue is the one that was pushed |
| Clients.Client.Account | source/server/send.c:102-103 | sent bytes are recorded and the queue is drained by their number |
| Clients.Client.SendLong | source/server/send.c:110-149 | sends a prefix of the stream, pops exactly that prefix, drains the queue by its length; after a socket error the client is as it was |
| Clients.SendRing | source/server/send.c:117-143 | what goes on the wire is a prefix of the ring, as long as the outcomes let through; after success exactly that prefix is popped, after an error nothing |
| Clients.Client.QueueAnswer | source/server/process.c:42-63 | the answer is queued; the request texts are copied into the queue before the request bytes are dropped; none of the calls marked fatal can fail |
| Clients.Client.Forget | source/server/process.c:65-72 | a connection that goes on starts with a new request |
| Clients.Client.TakeAnswer | source/server/process.c:42-63 | like QueueAnswer, with the same bytes leaving the request stream, and the answer goes to the short stream exactly if the client has no bytes of its own to send |
| Clients.Client.AppendToStream | source/server/process.c:36-36 | the owner's short bytes move behind its own stream |
| Clients.ReservePushValue | source/server/process.c:9-19 | appends both parts; with room reserved, pushing cannot fail |
| Clients.PushAnswer | source/processor/processor.c:48-98 | appends the encoding of exactly one frame, built from the texts that the request spans select |
| Clients.Client.Finalize | source/client.c:74-76 | rings are emptied and the queue metadata is gone |
| Clients.FrontFrame | source/server/send.c:14-26 | how the front frame lies at the start of the queue: header, then the texts its locations select, then the next frame |
| Frames.HeaderRoundTrip | include/processor.h:17-28 | decoding the 88-byte image of a response header gives the header back |
| Frames.EncodeFramesInjective | source/processor/processor.c:78-96 | two lists of well-formed frames with the same bytes are the same list: no frame boundary is ambiguous |
| Frames.BodyParts | source/processor/processor.c:62-76 | the locations in a header select exactly the method, resource, protocol and counters behind it |
| Frames.EncodeFramesAppend | source/processor/processor.c:78-96 | appending a frame to the queue appends its bytes |
| Frames.ConstructResponse | source/processor/processor.c:48-98 | the frame pushed is well formed, its header is the one returned, and the queue grew by exactly its encoding; after the reservation no push fails |
| Frames.PushFrame | source/processor/processor.c:78-96 | header, texts and zeroed chunk counters are appended in this order |
| Guppy.InsertMarkers | source/processor/guppy_processor.c:19-55 | turns any payload, in place, into its chunks one after the other, for every first sequence number the generator can draw |
| Guppy.SizeChunks | source/processor/guppy_processor.c:27-39 | the forward loop finds the one possible number of chunks and the total size, keeping only the two latest chunk sizes |
| Guppy.SizeChunk | source/processor/guppy_processor.c:29-37 | one step of it: the chunk is filled as far as payload and marker allow; no subtraction underflows |
| Guppy.SpreadChunks | source/processor/guppy_processor.c:41-53 | the backward loop puts every chunk in its final place |
| Guppy.SpreadChunk | source/processor/guppy_processor.c:43-52 | one step of it, with the size of the chunk recovered from the two sizes kept |
| Guppy.SpreadStep | source/processor/guppy_processor.c:48-51 | placing a chunk overwrites no payload byte that has not been moved yet |
| Guppy.ChunkSizes | source/processor/guppy_processor.c:41-47 | every chunk before the last two has exactly 512 bytes, the last one holds only its marker |
| Guppy.CountUnique | source/processor/guppy_processor.c:37-39 | the number of chunks is determined by the payload size |
| Guppy.CharBuffer.Resize | commonlib/source/string.c:78-93 | growing or shrinking keeps the bytes that both sizes share |
| Guppy.PlaceChunk | source/processor/guppy_processor.c:50-51 | payload moved first, marker copied second, nothing else changed |
| GuppySend.CutAgrees | source/server/low_level.c:44-66 | the sender, which recomputes the boundaries from three numbers, sends for every chunk exactly what the generator put there if and only if the payload is not empty and there are at most 2^23 + 1 chunks |
| GuppySend.PageDatagrams | source/server/low_level.c:57-66 | so for a page every datagram of a call is the chunk of its number, and copying it into the buffer is safe |
| GuppySend.LastChunkSize | source/server/send.c:78-78 | the size that send.c:78 and send.c:125 compute is that of the marker of the last chunk; the computation returns if and only if first_chunk + chunks.size is at least 1 |
| GuppySend.CutsWrong | source/server/low_level.c:47-57 | the chunk that is cut wrong otherwise |
| GuppySend.MessageSize | source/server/send.c:78-78 | the size of a message is that of its full chunks, its second last chunk and the marker of its last one, as the callers assume |
| GuppySend.ChunkReadsBack | source/processor/guppy_processor.c:43-51 | every datagram starts with the decimal of its own sequence number, then a space in the first chunk and CR LF in all others, whatever the payload and also where the digit count grows; number and payload can be read back |
| GuppySend.ReceiverGetsPage | source/processor/guppy_processor.c:27-53 | a receiver that takes nothing but such datagrams gets the original payload back, and the last datagram is the empty one |
| GuppySend.SendMessage | source/server/low_level.c:40-77 | for every message, number of chunks and last size: one call does exactly the specified scan over the counters inside the ring; the datagrams are the pieces that the computed sizes cut for the numbers the scan sends; only their counters change, no other byte of the queue does; the message is cleared exactly when all chunks were acknowledged |
| GuppyClients.SendFront | source/server/send.c:76-103 | a whole round for a Guppy client is a tick of the retransmission runs, to which GuppySend.SenderEnds applies: the scan is over the counters of the front queue entry, all other entries stay as they are, and when all chunks were acknowledged exactly that entry is popped and logged; accounting never fails; it does not return exactly for a response with first chunk 0 and no chunks |
| GuppyClients.AcknowledgeFront | source/server/receive.c:35-41 | an acknowledgement of a Guppy client is accepted exactly if the text behind the number does not end as it should and the number is one of the front response; then the counter of that chunk in the front entry is the only thing that changes, which is the acknowledgement event of the retransmission runs; else nothing changes |
| GuppyClients.RoundIsTick | source/server/low_level.c:52-76 | the scan of a round and the counters it leaves are those of a tick of the retransmission runs |
| GuppyClients.ScanFront | source/server/send.c:79-90 | the location in the front header leads to the front counters, so ring_get cannot fail, and the queue afterwards encodes the same entries with the counters of the scan |
| GuppyClients.CountersInPlace | source/server/send.c:79-82 | writing counters where that location says gives the encoding of the same entries with other counters |
| GuppySend.HandleChunk | source/server/low_level.c:57-69 | the loop body for one chunk: cut, give up, skip or send, in this order of tests |
| GuppySend.HandlePart | source/server/low_level.c:55-70 | the inner loop over the counters in one part of the queue |
| GuppySend.Bump | source/server/low_level.c:67-67 | counting one transmission through ring_get changes one byte of the queue and no other |
| GuppySend.ScanSends | source/server/low_level.c:52-71 | a scan sends the lowest-numbered unacknowledged chunks in order, at most four, each once, and counts exactly those |
| GuppySend.RealScan | source/server/low_level.c:63-69 | the same from the start, with the exact condition for giving up |
| GuppySend.DryScan | source/server/low_level.c:63-65 | a dry run changes and sends nothing, and gives up exactly if some chunk was sent four times |
| GuppySend.StepKeeps | source/server/low_level.c:52-76 | every tick or acknowledgement keeps the counters in range and acknowledged chunks acknowledged; a real tick that neither delivers nor gives up uses at least one repeat |
| GuppySend.SenderEnds | source/server/low_level.c:63-69 | over every run of ticks, dry runs and acknowledgements: a message of n chunks is delivered or given up after at most 4n real ticks |
| GuppySend.DeliveredMeansAcked | source/server/low_level.c:72-75 | a message is delivered only if every chunk was acknowledged |
| GuppySend.AllAckedDelivers | source/server/low_level.c:72-75 | once all chunks are acknowledged the next tick delivers |
| GuppySend.Acknowledge | source/server/receive.c:35-41 | an accepted acknowledgement sets one counter to -1 and changes no other byte of the queue; all others change nothing |
| GuppySend.AcknowledgeIsAck | source/server/receive.c:38-41 | through the ring this is the acknowledgement event of the runs above |
| Rings.Ring.Reserve | source/ring.c:15-72 | growth keeps the content, wrapped or not; no growth while there is room, and less than twice what is asked for otherwise |
| Rings.Ring.GetAll | source/ring.c:74-96 | at most two parts cover the content in order |
| Rings.Ring.Get | source/ring.c:98-145 | succeeds exactly if the location lies inside; the at most two parts cover the located bytes, counted from the front or, with latest, from the back, also with begin == capacity |
| Rings.Locate | source/ring.c:110-143 | the case split: which buffer indices hold the located bytes |
| Rings.Ring.Push | source/ring.c:147-152 | succeeds exactly if there is room, keeps the bytes before |
| Rings.Ring.PushGet | source/ring.c:162-170 | like Push, and the parts returned are the new bytes |
| Rings.Ring.PushWrite | source/ring.c:154-160 | appends the bytes or changes nothing |
| Rings.Ring.Pop | source/ring.c:172-183 | drops the first bytes or changes nothing |
| Rings.Ring.PopRead | source/ring.c:185-194 | returns and drops the first bytes |
| Rings.Ring.Unpush | source/ring.c:196-201 | drops the last bytes or changes nothing |
| Rings.Ring.Finalize | source/ring.c:8-13 | an empty ring |
| Rings.Ring.Overwrite | source/value.c:196-204 | writing through parts changes exactly the covered bytes |
| Rings.WrittenBytes | source/value.c:196-204 | the same as a fact about the buffer |
| Rings.PhysInjective | source/ring.c:110-143 | different bytes of a ring lie at different buffer indices |
| LowLevel.SendStream | source/server/low_level.c:14-38 | what went on the wire and what is left are together what was pending, even after an error; how much was taken; an error if and only if a send() that was called failed, saturated if and only if bytes are left without one |
| LowLevel.Unsent | source/server/low_level.c:18-36 | a failed call leaves something unsent, a socket that takes something gets something, and one that takes all it is offered gets everything |
| LowLevel.ReceiveStream | source/server/low_level.c:79-114 | appends exactly the bytes that read() delivered into the two parts of the room, the second only once the first is full; closed, failed and exhausted each exactly when they should |
| LowLevel.ReadParts | source/server/low_level.c:89-109 | the bytes read lie directly behind what was there before, with the same exact conditions for the three flags |
| LowLevel.SocketReads | source/server/low_level.c:89-109 | so a socket that holds data hands it over in order, as far as there is room, wherever the ring wraps |
| Values.Size | source/value.c:121-127 | the number of bytes of both parts |
| Values.First | source/value.c:129-144 | take, whatever the split into parts |
| Values.Second | source/value.c:146-163 | drop, whatever the split |
| Values.FirstSecond | source/value.c:165-184 | take and drop at once |
| Values.TrimValue | source/value.c:79-99 | sequence trimming, whatever the split; the unchecked backward loop stays inside |
| Values.TrimIsMaximal | source/value.c:79-99 | trimming cuts off blanks, only blanks and all blanks at both ends |
| Values.ParseComma | source/value.c:48-77 | cuts off the bytes before the first comma, whatever the split, and tells whether there was anything to cut |
| Values.CommaSplitJoins | source/value.c:48-77 | the elements so obtained contain no comma and joined by commas give the text back |
| Values.ToUint | source/value.c:101-119 | accepts exactly the digit strings with a value below 4294967280, returns that value, never overflows 32 bits |
| Values.DecimalValue | source/value.c:101-119 | printing a number and reading it back |
| Values.CompareCase | source/value.c:28-46 | equality of the lowered bytes, whatever the split |
| Values.Compare | source/value.c:11-21 | equality of the bytes, whatever the split |
| Values.ToContinuous | source/value.c:206-217 | the same bytes in one piece |
| Bytes.IntLength | source/utility.c:8-18 | with the 64-bit threshold, for every 64-bit number: the result is the number of decimal digits if and only if that is at most 19, and the loop ends if and only if the number is below the largest power of ten modulo 2^64; otherwise its guard holds for ever |
| Bytes.ThresholdBound | source/utility.c:11-16 | no power of ten modulo 2^64 is larger than that of 10^49 |
| Http.HttpParser.Parse | source/parser/parser.c:7-35 | the imperative parser over both parts of the ring computes the specified machine; afterwards all spans lie in the parsed prefix, which is inside the ring and the size limit |
| Http.HttpParser.ParsePart | source/parser/http_parser.c:219-464 | one part: header loop, body in bulk, bytes behind the end |
| Http.HttpParser.ScanPart | source/parser/http_parser.c:224-443 | the byte loop stops exactly where the specification does |
| Http.HttpParser.TakeByte | source/parser/http_parser.c:229-443 | one pass through the switch |
| Http.HttpParser.TakeRequestLine | source/parser/http_parser.c:231-331 | the states of the request line |
| Http.HttpParser.TakeName | source/parser/http_parser.c:333-411 | the states between lines, of names and of the final line break |
| Http.HttpParser.TakeValue | source/parser/http_parser.c:413-433 | the state of a field value, with the field taking effect at its line break |
| Http.ParseNameValue | source/parser/http_parser.c:176-217 | the effect of a field; reading name and value from the ring cannot fail |
| Http.FindKeepAlive | source/parser/http_parser.c:198-204 | true if and only if some comma-separated element, trimmed and lowered, is keep-alive |
| Http.RunKeepsSpans | source/parser/http_parser.c:224-464 | for every input and state: all spans stay inside the parsed prefix, an open span ends at the cursor, and no more is parsed than was there |
| Http.NameValueKeeps | source/parser/http_parser.c:176-217 | a field changes nothing but the promised length, the keep-alive wish and two recorded spans, and a promised length keeps the request inside the limit |
| HttpCuts.CutExactly | source/parser/http_parser.c:445-460 | for every parser state and every cut: parsing a and then b equals parsing a + b if and only if the cut is not one of two kinds behind the first byte of a body |
| HttpCuts.BodyInTwoPieces | source/parser/http_parser.c:445-460 | a body that arrives in two pieces is never complete after the second one |
| HttpCuts.RunIsLocal | source/parser/http_parser.c:182-211 | the result does not depend on bytes that have not been parsed yet |
| HttpCuts.WrapExactly | source/parser/parser.c:17-28 | where the ring wraps does not matter, with the same exception |
| HttpCuts.SegmentsDoNotMatter | source/parser/http_parser.c:219-464 | any number of segments cut in front of the body parse like one piece |
| HttpCuts.ReceiveKeeps | source/parser/parser.c:13-28 | each further receive of a growing request stream, wrapped anywhere in front of the body, leaves the parser as if everything had come at once |
| HttpCuts.ParsedRequestInside | source/server/process.c:43-44 | what the parser hands over meets what the pipeline requires, so the ring accesses marked fatal succeed |
| HttpRoundTrip.RoundTrip | source/parser/http_parser.c:219-464 | formatting any request (sections 4.2 and 5.1 of RFC 2616) with a body in one part, with any blanks around its words and names, each line ended by CR LF or LF alone, and parsing it gives exactly its method, resource and protocol, the last user agent and accept-language, its length, and keep-alive if and only if some Connection field lists it; what follows is left alone, except that it is refused behind a bodyless request that does not keep its connection |
| HttpRoundTrip.ReadsRequestLine | source/parser/http_parser.c:231-350 | a formatted request line yields exactly its three spans |
| HttpRoundTrip.ReadsField | source/parser/http_parser.c:352-433 | a formatted field has exactly the effect its name and value stand for |
| HttpRoundTrip.FieldsSummary | source/parser/http_parser.c:176-217 | what a whole list of fields adds up to: announced length, keep-alive, last user agent, last accept-language |
| HttpFields.ClientRequest | source/parser/http_parser.c:219-464 | the same for requests as clients write them, said in bytes and words: names in any case, blanks around lengths and list elements; the request that the server gets has exactly those texts and that length, and is kept alive if and only if a Connection field has the word keep-alive in its list |
| HttpFields.LengthTakesEffect | source/parser/http_parser.c:181-192 | Content-Length in any case, with any spaces and tabs around a decimal number n: exactly n is announced, or refused if and only if n is at least 4294967280 or the request would get too large |
| HttpFields.ConnectionTakesEffect | source/parser/http_parser.c:193-205 | Connection in any case, with any spaces and tabs around the elements of its list: the connection is kept if and only if one of them is keep-alive in any case |
| HttpFields.TrimBlanks | source/value.c:79-99 | trimming takes exactly the spaces and tabs around a text that has no blank at its ends |
| HttpFields.ListSplits | source/value.c:52-77 | a list is cut into exactly its elements |
| HttpFields.AcceptedBytes | source/tables.c:1300-1328 | which bytes may go on or end a method, a resource, a protocol, a name and a value; all others make the request invalid |
| Gemini.AcceptsExactly | source/parser/gemini_parser.c:11-50 | the parser is done if and only if it has read protocol ++ method ++ resource ++ newline, and its spans are then those pieces |
| Gemini.RefusesExactly | source/parser/gemini_parser.c:18-46 | a byte is refused if and only if no request begins like that |
| Gemini.SchemesApart | source/parser/gemini_parser.c:53-72 | a request of one of the three protocols is refused by the parsers of the other two |
| Gemini.SchemeTexts | source/parser/gemini_parser.c:54-72 | the three schemes |
| Gemini.CutsDoNotMatter | source/parser/gemini_parser.c:6-51 | every cut in every state: parsing a and then b is parsing a + b |
| Gemini.LineParser.TakeByte | source/parser/gemini_parser.c:15-47 | one pass through the switch; the protocol is never read behind its end |
| Gemini.LineParser.ParsePart | source/parser/gemini_parser.c:6-51 | one part |
| Gemini.LineParser.Parse | source/parser/parser.c:7-35 | the result depends on the bytes and the size limit only, not on where the ring wraps; everything new is parsed |
| ClientTable.RemoveFinalized | source/client.c:35-57 | one pass over both arrays leaves the live clients in order, each with its own poll entry behind the 18 accepting ones, and moves a live owner index along |
| ClientTable.SurvivorKeepsPlace | source/client.c:47-53 | the survivor at the new place is the same client |
| ClientTable.CompactionRefines | source/client.c:40-57 | the pass is the Compact event of the pipeline |
| ClientTable.Shuffle | source/client.c:16-33 | the shuffle indices after the loop are those of the specified swaps |
| ClientTable.ProcessedOnce | source/server/high_level.c:290-297 | every client is processed exactly once per round, whatever the random numbers |
| ClientTable.ShuffleInjective | source/client.c:22-32 | different random numbers give different orders |
| ClientTable.ShuffleSurjective | source/client.c:22-32 | every order comes from some random numbers |
| Random.RandomRand | source/random.c:15-43 | the first accepted sample is returned modulo the number of outcomes, all before it were rejected |
| Random.Uniform | source/random.c:33-41 | for 2 to 2^31 outcomes each is given by exactly 2^31 / n results of rand() |
| Random.UniformExactly | source/random.c:31-41 | every outcome is given by some result of rand() if and only if there are at most 2^31 |
| Random.HitsPeriod | source/random.c:41-41 | how often each outcome is hit among the first values |
| NexWrap.Wrap | source/processor/nex_processor.c:14-29 | in place: only spaces become newlines, each such break was forced and is as late as possible, every line longer than 70 bytes has no space, and the unsigned subtraction does not underflow |
| NexWrap.WrappedIsUnique | source/processor/nex_processor.c:14-29 | these conditions leave exactly one possible result |
| Links.SlashLinkExactly | source/language.c:26-32 | following a link in the slash form gives its resource and an effective language equal to the link's if and only if the resource has no slash at its ends and, where the link elides its language, no last segment that reads as one; for all leading and trailing slashes, explicit and implicit languages |
| Links.QuestionLinkExactly | source/language.c:18-24 | the same for the question form, if and only if the resource has no slash at its ends and no ? or # |
| Links.LanguageTexts | source/language.c:3-32 | what a link says of its language, and that it leaves it out if and only if nobody asked for the language that the browser gets anyway |
| Links.BrowsingKeepsLanguage | source/processor/generic.c:418-423 | following any sequence of links in the question form never changes the effective language |
| Links.BrowsingSlashKeepsLanguage | source/processor/generic.c:418-423 | the same for the slash form, for resources without a slash at their ends and without a last segment that reads as a language |
| Links.DoNormalizeSlash | source/processor/generic.c:70-99 | the trimmed resource, without its last segment if that is a language; the same for every split into two parts |
| Links.DoNormalizeQuestion | source/processor/generic.c:101-167 | the resource up to the first ? or #, and the language named behind the last ?; the same for every split |
| Links.ParseQuery | source/processor/generic.c:129-166 | the byte machine names a language if and only if what follows the last ? starts with lang= and its two letters |
| Links.CollectSegment | source/processor/generic.c:81-92 | the backward loop over both parts finds the last segment, or that it is too long for a language |
| Links.FindQuery | source/processor/generic.c:110-125 | the forward loop stops at the first ? or # |
| Links.TrimLeadingSlash | source/processor/generic.c:46-56 | drops all leading slashes, whatever the split |
| Links.TrimTrailingSlash | source/processor/generic.c:58-68 | drops all trailing slashes, whatever the split |
| HtmlPages.PrintContext.Print | source/processor/processor.c:164-185 | after the final entry the page is well nested, everything is closed, and every text stands in exactly the elements its style asks for, an item directly in a list of its own kind |
| HtmlPages.PrintContext.PrintHttp | source/processor/http_processor.c:205-269 | the tags that one entry appends, given the style before it |
| HtmlPages.PageReads | source/processor/http_processor.c:205-269 | the same for every sequence of entries |
| HtmlPages.PrintedReads | source/processor/http_processor.c:209-267 | one entry leaves at most its own list open |
| HtmlPages.EntryBreaks | source/processor/http_processor.c:256-268 | the line ends behind normal entries and references and nowhere else |
| HtmlPages.OneListPerRun | source/processor/http_processor.c:209-235 | there are exactly as many lists as runs of consecutive items of a kind |
| HtmlPages.ItemNumber | source/processor/processor.c:170-170 | the list index is the position of an item in its enumeration |

## Left out

- Sockets, poll, ioctl, accept, signals and clocks: foreign calls. Their results are parameters or events; timeouts appear as Abort events.
- TLS and the recovery path that exists only for it (`cryptography.c`, `high_level.c:80-92`): plaintext clients only.
- The order of receive, parse and send inside one round (`high_level.c:111-175`): the runs allow every order, so what is proved does not depend on it.
- Pipeline.FifoConservation: runs with an event that loses bytes are excluded; `Pipeline.LosesExactly` shows that nothing can be promised after one. The entry of the C array behind the last client, which a stale owner index may point to, is not modelled.
- Sending to a Guppy client is not in the pipeline state machine; its table entry, its messages and its finalization are. GuppyClients treats its rounds and acknowledgements one at a time.
- Received in `Pipeline.Event` may be for any live client at the message index; in the original only Guppy clients read messages, so the runs include more than can happen.
- GuppyClients.SendFront: the pending bytes are those of the front response. A Guppy client gets one answer (its response never keeps the connection alive), so there are no others.
- GuppySend.SendMessage: a piece that lies in two parts is required to fit into the 512 bytes of the buffer on the stack, as for every page; the copy in low_level.c:61 has no check of its own. Which bytes sendto finds behind the end of a message that was cut too long is not modelled.
- Guppy.InsertMarkers: sequence numbers that wrap around 32 bits are excluded; that needs a page of more than two terabytes.
- Keep-alive after an answer (`process.c:66`): the flag is read from the response at the front of the queue, not from the new one. The model does so too, but nothing is claimed about which requests keep a connection alive.
- Clients.Client.Forget: of the parser's reset it keeps only the cleared request; the parser itself is in Http.
- HttpRoundTrip.RoundTrip: the body has to come in one part, since two parts are not recognised (see Findings).
- HttpRoundTrip.RoundTrip: lines that end in CR alone (`http_parser.c:327-346`) are not among the formatted requests; the parser tolerates them if all lines end so.
- Accept-Language quality values (`http_parser.c:13-173`): floating point. Only the span of the header value is recorded.
- Spartan, Finger and Gopher parsers: Spartan repeats the HTTP body logic, the other two are single-line parsers like Gemini.
- Values are modelled by what their two pointers point to, so a value that aliases a ring which changes under it cannot be expressed; parts inside a ring are `Spans` with offsets instead.
- Rings.Ring.Reserve: the shrinking branch (`ring.c:25-49`) is not modelled, since the new capacity is never smaller than the old one.
- Frames.HeaderRoundTrip: a struct image is 88 bytes, little endian, with zero padding; other layouts are not modelled.
- Memory exhaustion, and wrap-around of `size_t` arithmetic other than in int_length, its argument and the chunk sizes: elsewhere the server's own limits keep sizes far below 2^64.
- Random.RandomRand: the results of rand() are a given finite list, so a sampling loop that never ends is not expressed; RAND_MAX is 2^31 - 1.
- NexWrap.Wrap: the array is the slice that the caller passes; Unicode is not considered, as in the original.
- HtmlPages.PrintContext.Print: tags are tokens and text is taken to hold no tags; the HTTP header in front of the page and its Content-Length are not modelled.
- Log files, page texts, fun facts, the other printing back ends, upper-casing and boxes: constant strings or cosmetics.
