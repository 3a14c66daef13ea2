# Medici event and I/O library: verified models

Models of the five stateful parts of the Medici C++ library, and proofs of what their callers rely
on.  Each concurrent part is a state machine, a state and a total step function, whose theorems hold
for every schedule; beside it stands a class that updates the same fields in place, each method
proved to go where the machine goes.

* **Shared-memory channels.**  `SpscRing` is the lock-free ring, one step for each atomic load or
  store, and `SharedMemPODQueue` the same ring in place.  `SpillChannel` puts the back-pressure queue
  and the drain task behind it, `SpmcEndpoints` broadcasts over many such channels while consumers
  attach and poll, `ScmpEndpoints` lets one server poll many clients, `ChannelAllocation` attaches processes and lays out the segment, `DuplexRouting`
  pairs the channels of full-duplex clients.
* **Streaming decoders.**  `WebSocketFrames` says what a stream of frames means, `WebSocketMessages`
  encodes messages, `WebSocketDecoder` is the endpoint that reads.  `HttpParser` says what a stream
  of requests means, one byte at a time; `HttpEndpoint` is the endpoint that parses reads, and
  `HttpMessages` prints requests.  `HttpText` holds the text primitives, `Reads` the stream cut into
  reads.
* **Send queue.**  `SendQueue` is the machine over all schedules of sends, writes, callbacks and
  disconnections, `SendEndpoint` the TLS or TCP endpoint.
* **Event loop.**  `TimerHeap` and `PrecisionEvents` are the precision timers, `LocalQueue` the loop's
  own queue, `ProducerRegistry` the registration of posting threads, `PayloadSlots` the payload
  storage of a posting thread, `ManualTimer` the repeating timer on top.
* **Text codecs.**  `UrlCodec` and `Multipart`, over the multimap of `FieldMap`.

Input that comes from outside is a parameter: the bytes of a read, what a write accepts, clock
readings, what a handler, callback or action returns and which calls it makes, and whether the event
queue accepts a post.  A schedule is a sequence of such inputs.

`dafny verify dfyconfig.toml` checks everything with Dafny 4.11.

## Where the code does not keep a promise

The member named says when, for all inputs or runs, as an equivalence:

* A channel whose drain task is posted while the event queue has a payload prepared is never drained
  again (`SpillChannel.StrandedExactly`, `SpillChannel.StrandedForever`).
* Replies of a full-duplex server return to the requester iff the pairing of channels is its own
  inverse, which interleaved client construction can break (`DuplexRouting.RepliesReturnIffInvolution`,
  with the run `DuplexRouting.InterleavedReplyMisrouted`); while clients are being constructed, the reply
  to a paired one returns iff the client found under its number has its channel, or none is found and the
  previous reply went there (`DuplexRouting.ReplyReturnsIff`).
* A WebSocket message arrives iff it is shorter than 65536 bytes (`WebSocketMessages.SendArrivesIff`);
  one in several masked frames arrives intact iff its keys line up
  (`WebSocketMessages.FragmentsArriveIff`); a client's control frame arrives as sent iff its key is zero
  where it is used (`WebSocketMessages.ClientControlArrivesIff`); a control frame inside a message in
  several frames ends the message and then the connection (`WebSocketMessages.InterruptedDecodes`,
  `WebSocketMessages.InterruptedArrivesIff`).
* A request line means the same however the stream is cut iff it has two words
  (`HttpParser.IndependentOfReadsIff`).
* A send queue loses its drain task iff its payload is empty, a callback fails, a TCP write fails or
  would block, or the event queue refuses the task, when it is first posted or when it posts itself
  again (`SendQueue.StallsIff`).
* A form parses back iff it is ASCII and its last entry is complete (`UrlCodec.FormRoundTripIff`); an
  encoded string decodes to itself iff it is ASCII (`UrlCodec.EncodedDecodes`).
* A multipart form comes back iff no name holds a quote or a line end and no value holds the boundary or
  ends in a line end (`Multipart.RoundTripIff`).
* A printed request parses back iff its URI is one word, no header holds a line feed and no name a
  colon, its names are upper case and have one value, and nothing can be trimmed
  (`HttpMessages.PrintedParsesIff`).
* The producer counter stays within the table on every schedule iff there are no more posting threads
  than slots (`ProducerRegistry.PollInRangeIff`); otherwise the event loop may read past its end, and so
  may a thread whose cached index, left by a larger queue, is below the number of threads
  (`ProducerRegistry.CacheReadsPastTheEndIff`).
* Payload objects are all destroyed iff none is wasted (`PayloadSlots.EveryRun`), and a slot in use is
  handed out again iff a multiple of the capacity was obtained since (`PayloadSlots.AliasesIff`).
* Precision events fire in time order iff none is handed over by another thread after a later one has
  fired (`PrecisionEvents.OrderKeptIff`).
* A precision timer has two callbacks to come iff it is restarted while one is, and an idle timer also
  after every post on the loop's thread (`ManualTimer.TwoCallbacksIff`), so that its callbacks become one
  more with each firing (`ManualTimer.CallbacksGrow`).

## Model

| member | source | states |
|---|---|---|
| SpscRing.NextRefinesFifo | shm_endpoints/SharedMemPODQueueDefinition.hpp:76-120 | Every atomic load or store of either process is a step of a FIFO of capacity `queueSize`: `enqueue` takes effect when it stores the tail, is refused exactly when the ring was full as it loaded the head, and an entry leaves when the head is stored. |
| SpscRing.FullMeansCapacity | shm_endpoints/SharedMemPODQueueDefinition.hpp:79-84 | The next tail meets the head exactly when `queueSize` entries are unread. |
| SpscRing.EverySchedule | shm_endpoints/SharedMemPODQueueDefinition.hpp:76-120 | For every interleaving of producer and consumer steps, what the handler saw followed by what it has yet to see is what was published, in order, each entry once, whatever the handler returned. |
| SpscRing.NextInv | shm_endpoints/SharedMemPODQueueDefinition.hpp:79-120 | Every step of either process keeps the ring invariant. |
| SpscRing.NoSlotShared | shm_endpoints/SharedMemPODQueueDefinition.hpp:79-88 | The slot the producer may write holds no unread entry and is not the one the consumer is reading. |
| SpscRing.AvailabilityPersists | shm_endpoints/SharedMemPODQueueDefinition.hpp:106-120 | Once `updatesAvailable` saw an entry, no step of the producer takes it away or changes it, and `consumeAvailable` hands over exactly that entry. |
| SpscRing.EnqueueCallEffect | shm_endpoints/SharedMemPODQueueDefinition.hpp:79-88 | A whole `enqueue` call appends its value, or returns false exactly on a full ring. |
| SpscRing.ConsumeAvailableCallEffect | shm_endpoints/SharedMemPODQueueDefinition.hpp:114-120 | A whole `consumeAvailable` call hands the oldest entry to the handler and frees its slot even if the handler fails. |
| SharedMemPODQueue.FixedConstructLenSPSC.Enqueue | shm_endpoints/SharedMemPODQueueDefinition.hpp:79-88 | In place over the slot array: the unread entries grow by the value, or nothing changes and the result is false, exactly when full; the state is the one the machine's steps reach. |
| SharedMemPODQueue.FixedConstructLenSPSC.UpdatesAvailable | shm_endpoints/SharedMemPODQueueDefinition.hpp:106-112 | True exactly when there is an unread entry. |
| SharedMemPODQueue.FixedConstructLenSPSC.ConsumeAvailable | shm_endpoints/SharedMemPODQueueDefinition.hpp:114-120 | The oldest unread entry is handled and removed, and the handler's verdict returned. |
| SharedMemPODQueue.FixedConstructLenSPSC.Consume | shm_endpoints/SharedMemPODQueueDefinition.hpp:90-104 | The same, or false on an empty ring. |
| ChannelAllocation.SameBuffer | shm_endpoints/SharedMemPODQueueDefinition.hpp:251-271 | `strncmp` finds a name taken exactly when the 63-character buffers the two names are stored in are equal. |
| ChannelAllocation.StoredAlikeIff | shm_endpoints/SharedMemPODQueueDefinition.hpp:251-271 | The stored name has 64 characters, the name up to its terminator and then terminators, the last always; two names are stored alike exactly if they agree up to their terminators or in their first 63 characters. |
| ChannelAllocation.EveryAttach | shm_endpoints/SharedMemPODQueueDefinition.hpp:237-275 | For every interleaving of attaching processes: no channel is granted twice, a granted channel is published and carries its process's name, non-empty stored names stay distinct, and a process is refused only when its name is taken or all channels are. |
| ChannelAllocation.StepInv | shm_endpoints/SharedMemPODQueueDefinition.hpp:237-275 | Every step of an attach keeps the segment invariant. |
| ChannelAllocation.NamedBeforePublished | shm_endpoints/SharedMemPODQueueDefinition.hpp:262-275 | When a channel becomes visible its name is already written. |
| ChannelAllocation.OnlyGrantsLeaveATrace | shm_endpoints/SharedMemPODQueueDefinition.hpp:237-275 | Over any run, refused attaches leave no trace: with no attach in progress the published names are those of the processes that were granted channels, and every other slot is blank. |
| ChannelAllocation.AttachesAlone | shm_endpoints/SharedMemPODQueueDefinition.hpp:237-275 | An attach that nothing interrupts ends as the call does: refused iff its name is taken or all channels are, else with the next channel, named and published, and the mutex free. |
| ChannelAllocation.SharedMemoryLayout.AllocQueueChannel | shm_endpoints/SharedMemPODQueueDefinition.hpp:237-275 | In place: the next channel with its stored name, or an error for exactly a full segment or a taken name, with nothing changed. |
| ChannelAllocation.WalkIsIndexed | shm_endpoints/SharedMemPODQueueDefinition.hpp:122-130 | The constructor's `next` walk stands where indexed lookup points, for each channel, also when the slot count wraps at 32 bits. |
| ChannelAllocation.ChannelRegions | shm_endpoints/SharedMemPODQueueDefinition.hpp:189-231 | The constructed channels are the ones looked up, pairwise disjoint, behind the segment header and inside the segment. |
| ChannelAllocation.SegmentSize | shm_endpoints/SPMCEndpointsImpl.hpp:33-42 | Slot counts wrap at 32 bits, and a segment is as large as its layout and channels, but never smaller than 4096 bytes. |
| SpmcEndpoints.BroadcastDelivery | shm_endpoints/SPMCEndpointsImpl.hpp:48-75 | For every interleaving of pushes, drain runs, consumer steps and attaches, on every channel: handled, then in the ring, then spilled is exactly what was pushed to it since it was first counted active, in order, nothing lost or doubled. |
| SpmcEndpoints.CallsCarriedOut | shm_endpoints/SPMCEndpointsImpl.hpp:48-103 | Over any schedule, the calls logged and the one in progress are those the schedule made between other work of the producer, in order, each with its own message, a broadcast to as many channels as were active when it began. |
| SpmcEndpoints.AttachesCount | shm_endpoints/SPMCEndpointsImpl.hpp:48-75 | The active channels are those attached so far, as far as there are channels. |
| SpmcEndpoints.DrainPendingIffSpilled | shm_endpoints/SPMCEndpointsImpl.hpp:114-179 | At rest a channel's spill queue is non-empty iff exactly one drain task of it is pending, for exactly the channels none of whose posts was rejected. |
| SpmcEndpoints.AllDelivered | shm_endpoints/SPMCEndpointsImpl.hpp:48-216 | With no drain pending or rejected and an empty ring, the consumer has handled exactly the messages of the calls meant for it. |
| SpmcEndpoints.ClientPolls | shm_endpoints/SPMCEndpointsImpl.hpp:263-290 | Whatever the server is at, a client of an active channel that polls hands over exactly what its ring holds, oldest first, up to and with the first entry that its handler fails on; it frees those slots and touches nothing else. |
| SpmcEndpoints.NextStateInv | shm_endpoints/SPMCEndpointsImpl.hpp:48-216 | Every step of the producer, of a consumer and of an attach keeps the server invariant. |
| SpmcEndpoints.ServerShmPODProducerEndpoint.PushMessage | shm_endpoints/SPMCEndpointsImpl.hpp:48-75 | In place: every active channel and no other is pushed the message, and the endpoint is where a run of the machine with this one call takes it, whether or not the event queue refuses posts. |
| SpmcEndpoints.ServerShmPODProducerEndpoint.PushMessageTo | shm_endpoints/SPMCEndpointsImpl.hpp:77-94 | In place: a push to one channel, and the run of the machine that makes the same push. |
| SpmcEndpoints.ServerShmPODProducerEndpoint.PushMessageToChannel | shm_endpoints/SPMCEndpointsImpl.hpp:184-216 | In place: the message goes into the ring if nothing is spilled and there is room, else to the back-pressure handler; refused exactly for an inactive channel. |
| SpmcEndpoints.ServerShmPODProducerEndpoint.ApplyDefaultBackPressureHandler | shm_endpoints/SPMCEndpointsImpl.hpp:114-156 | In place: the message is spilled on the active outgoing channel, and if it is the first there, a drain task is posted behind the others, or refused. |
| SpmcEndpoints.ServerShmPODProducerEndpoint.RunOldestDrain | shm_endpoints/SPMCEndpointsImpl.hpp:148-179 | In place: a drain run moves messages from the spill queue to the ring until one is exhausted, and if messages are left posts itself again behind the others or, refused, strands the channel; a run of the machine with this one task gets there. |
| SpmcEndpoints.TaskRuns | shm_endpoints/SPMCEndpointsImpl.hpp:148-179 | The atomic steps of a whole drain run, uninterrupted, add up to its effect at once. |
| SpmcEndpoints.DirectPushRuns | shm_endpoints/SPMCEndpointsImpl.hpp:77-94 | So do those of a push to one channel, or of its refusal. |
| SpillChannel.PushCallBacklog | shm_endpoints/SPMCEndpointsImpl.hpp:184-216 | A push puts its message behind everything waiting for the channel, passes no spilled message, enters the ring exactly if it may, and strands the channel exactly if it is the first to spill while the event queue refuses posts. |
| SpillChannel.DrainCallBacklog | shm_endpoints/SPMCEndpointsImpl.hpp:148-179 | A drain run keeps the backlog and its order, leaves messages spilled only behind a full ring, and then is posted again or strands the channel. |
| SpillChannel.PushIsCall | shm_endpoints/SPMCEndpointsImpl.hpp:184-216 | Step by step, whatever the ring answers, a push is done within four more steps of the producer, with the effect of that call. |
| SpillChannel.DrainRunIsCall | shm_endpoints/SPMCEndpointsImpl.hpp:148-179 | Step by step, a pending drain run is done within five steps for each spilled message and one more, with the effect of that run. |
| SpillChannel.OneDrainIffSpilled | shm_endpoints/SPMCEndpointsImpl.hpp:114-179 | Between runs of the producer's code: spill non-empty iff one drain pending, iff no post was rejected. |
| SpillChannel.StrandedExactly | shm_endpoints/SPMCEndpointsImpl.hpp:148-156 | A channel loses its drain task exactly when one is posted while the event queue has a payload prepared. |
| SpillChannel.StrandedForever | shm_endpoints/SPMCEndpointsImpl.hpp:148-179 | From then on no run takes a message out of its spill queue. |
| SpillChannel.Conserved | shm_endpoints/SPMCEndpointsImpl.hpp:184-216 | Ring and spill queue together neither lose, double nor reorder. |
| SpillChannel.AdvancedInv | shm_endpoints/SPMCEndpointsImpl.hpp:114-216 | Every step of push, drain and consumer keeps the channel invariant. |
| SpillChannel.FreshChannelInv | shm_endpoints/SPMCEndpointsImpl.hpp:36-46 | A freshly constructed channel satisfies the invariant. |
| SpillChannel.DeliveredAtRest | shm_endpoints/SPMCEndpointsImpl.hpp:148-179 | A drained channel has delivered exactly what was pushed. |
| ScmpEndpoints.EachClientServedInOrder | shm_endpoints/SCMPEndpointsImpl.hpp:55-81 | For every interleaving of clients and the polling server: what was dispatched under a client's channel index, what is in its ring and what is spilled is, in order, exactly what that client's own steps pushed; and each client's spill queue is non-empty iff one drain is pending unless a post was rejected. |
| ScmpEndpoints.NextStateInv | shm_endpoints/SCMPEndpointsImpl.hpp:55-81 | Every step of the server and of a client keeps the system invariant. |
| ScmpEndpoints.PollServes | shm_endpoints/SCMPEndpointsImpl.hpp:60-81 | A poll that nothing interrupts serves every channel active when it begins, in turn: each entry is dispatched with that channel's index, oldest first, and freed; an entry that fails is the last, and frees its slot too. |
| ScmpEndpoints.PollEmpties | shm_endpoints/SCMPEndpointsImpl.hpp:60-81 | If nothing fails, it empties the ring of every such client, and hands over exactly what was in it. |
| ScmpEndpoints.PollAndDispatch | shm_endpoints/SCMPEndpointsImpl.hpp:60-81 | In place: the loop over channels and entries dispatches and leaves what that poll does, and counts what it handled. |
| ScmpEndpoints.PollChannel | shm_endpoints/SCMPEndpointsImpl.hpp:66-78 | One channel's part of a poll in place: the entries up to the first that fails, and that one too, are handed over and freed. |
| DuplexRouting.LookupInverts | shm_endpoints/FullDuplexEndpointsImpl.hpp:142-158 | For a complete pairing table the lookup yields the pairing's inverse. |
| DuplexRouting.RepliesReturnIffInvolution | shm_endpoints/FullDuplexEndpointsImpl.hpp:142-158 | All replies reach their requester iff the pairing is its own inverse. |
| DuplexRouting.EveryConstruction | shm_endpoints/FullDuplexEndpointsImpl.hpp:285-303 | However the client constructors interleave, the finished table is complete and pairs each producer channel with its owner's consumer channel. |
| DuplexRouting.UninterleavedRepliesReturn | shm_endpoints/FullDuplexEndpointsImpl.hpp:285-303 | Clients constructed one after the other get equal channel numbers, so every reply returns. |
| DuplexRouting.InterleavedReplyMisrouted | shm_endpoints/FullDuplexEndpointsImpl.hpp:285-303 | Three interleaved constructors give a pairing under which a reply goes to the wrong client. |
| DuplexRouting.ReplyReturnsIff | shm_endpoints/FullDuplexEndpointsImpl.hpp:142-158 | After any steps of any constructors, finished or not, the reply to a paired client reaches it iff the owner of the consumer channel that has its producer's number is paired with the producer channel that has its consumer's number, or is not paired yet and the previous request came from there. |
| DuplexRouting.RepliesReturnMeanwhile | shm_endpoints/FullDuplexEndpointsImpl.hpp:285-303 | While clients are constructed one after the other, replies to those already paired return at every moment. |
| DuplexRouting.DuplexSegment.AddMapEntry | shm_endpoints/FullDuplexEndpointsImpl.hpp:48-66 | In place: the pair is the table's next entry. |
| DuplexRouting.DuplexSegment.SelectReplyChannel | shm_endpoints/FullDuplexEndpointsImpl.hpp:142-158 | In place: the producer index of the first entry with the incoming consumer index, or the one of the previous request. |
| WebSocketFrames.DecodeResumes | sockets/live/WebSocketLiveEndpoint.hpp:493-766 | Decoding may stop after any byte of any stream and resume with the bytes left of the frame in progress: the events and the end state are those of the whole stream. |
| WebSocketFrames.HeaderStable | sockets/live/WebSocketLiveEndpoint.hpp:529-577 | A complete header reads the same whatever follows it. |
| WebSocketFrames.ParseHeader | sockets/live/WebSocketLiveEndpoint.hpp:534-577 | A header is incomplete only on fewer than 14 bytes, which bounds the carry. |
| WebSocketFrames.MaskedTwice | sockets/live/WebSocketLiveEndpoint.hpp:703-712 | Masking twice under one key gives the payload back. |
| WebSocketMessages.RoundTrip | sockets/live/WebSocketLiveEndpoint.hpp:493-766 | Decoding inverts encoding for any list of messages: unmasked ones in any fragmentation, masked ones in one frame, in any length form, with control messages between (sections 5.2 to 5.4 of RFC 6455). |
| WebSocketMessages.MessageDecodes | sockets/live/WebSocketLiveEndpoint.hpp:493-766 | One message decodes to its own events and leaves the rest of the stream untouched. |
| WebSocketMessages.CloseEndsDecoding | sockets/live/WebSocketLiveEndpoint.hpp:671-753 | After any messages, a frame of opcode 8, of an opcode that is not known, or one that continues nothing, in however many frames, masked or not, ends the connection: the messages before are dispatched, and nothing of what follows. |
| WebSocketMessages.RefusedHeaderEndsDecoding | sockets/live/WebSocketLiveEndpoint.hpp:579-638 | After any messages, a header that a client did not mask, or that has the bit RSV2 or RSV3 set, ends the decoding, and the messages before are dispatched. |
| WebSocketMessages.TooLongEndsDecoding | sockets/live/WebSocketLiveEndpoint.hpp:556-609 | After any messages, a header whose eight-byte length has 2^32 - 10 or more in the four bytes kept ends the decoding. |
| WebSocketMessages.MarkedMessageDecodes | sockets/live/WebSocketLiveEndpoint.hpp:632-753 | A text or binary message whose first frame has RSV1 set arrives, in any number of frames, as it does without, and marked compressed (section 6.1 of RFC 7692). |
| WebSocketMessages.KeyedFragmentsDecode | sockets/live/WebSocketLiveEndpoint.hpp:632-712 | A message in any number of frames, masked or not: the bytes are put together as they are on the wire and unmasked as one under the last key. |
| WebSocketMessages.FragmentsArriveIff | sockets/live/WebSocketLiveEndpoint.hpp:632-712 | Such a message arrives as sent iff each frame's key agrees, on the bytes the frame has, with the last key started at the front of the message. |
| WebSocketMessages.InterruptedDecodes | sockets/live/WebSocketLiveEndpoint.hpp:632-712 | A control frame between the frames of a message ends it: its front is dispatched as the message, with the control payload behind it, and what is left of the message ends the connection (section 5.4 of RFC 6455 allows such frames). |
| WebSocketMessages.InterruptedArrivesIff | sockets/live/WebSocketLiveEndpoint.hpp:632-712 | The interrupted message arrives all the same iff its front's keys line up and the control payload, unmasked with it, happens to be the rest of the message. |
| WebSocketMessages.ServerSendFramedPayload | sockets/live/WebSocketLiveEndpoint.hpp:245-322 | The buffer is one final unmasked frame whose length field holds the size narrowed to 16 bits. |
| WebSocketMessages.ClientSendFramedPayload | sockets/live/WebSocketLiveEndpoint.hpp:165-243 | The same with the mask bit, the key, and the payload masked in place. |
| WebSocketMessages.MaskFrom | sockets/live/WebSocketLiveEndpoint.hpp:214-218 | Exactly the bytes from the offset on are XORed with the repeating key. |
| WebSocketMessages.SendArrivesIff | sockets/live/WebSocketLiveEndpoint.hpp:186-218 | The peer decodes a sent message to itself, with nothing left over, iff it is shorter than 65536 bytes. |
| WebSocketMessages.SentFrameSplits | sockets/live/WebSocketLiveEndpoint.hpp:186-218 | What is sent is a frame with the first size modulo 65536 bytes, followed by the others. |
| WebSocketMessages.ClientControlStaysMasked | sockets/live/WebSocketLiveEndpoint.hpp:691-712 | A control frame from the masking client reaches the server's handler, and is echoed, still masked, and its key stays behind. |
| WebSocketMessages.ClientControlArrivesIff | sockets/live/WebSocketLiveEndpoint.hpp:691-712 | It arrives as sent iff it is shorter than 65536 bytes and the key is zero wherever it is used. |
| WebSocketDecoder.BegunEnds | sockets/live/WebSocketLiveEndpoint.hpp:634-650 | The rest of a frame that began in an earlier read completes it as if it had come at once. |
| WebSocketDecoder.FreshRound | sockets/live/WebSocketLiveEndpoint.hpp:529-633 | What the bytes from an offset decode to, by the header there: incomplete, refused, begun, or complete. |
| WebSocketDecoder.WebSocketLiveEndpoint.ReadAll | sockets/live/WebSocketLiveEndpoint.hpp:372-388 | For any split of any byte stream into non-empty reads that fit the buffer behind the header carried over, what is dispatched and the final status are what the whole stream means. |
| WebSocketDecoder.WebSocketLiveEndpoint.ReadMessages | sockets/live/WebSocketLiveEndpoint.hpp:372-388 | Any legal encoding of any list of messages, cut into any reads, is dispatched as that list. |
| WebSocketDecoder.WebSocketLiveEndpoint.ReadUntilClose | sockets/live/WebSocketLiveEndpoint.hpp:372-388 | A close frame or one of an unknown opcode behind any messages, cut into any reads, ends the connection, with exactly those messages dispatched. |
| WebSocketDecoder.WebSocketLiveEndpoint.OnPayloadReady | sockets/live/WebSocketLiveEndpoint.hpp:372-388 | One read keeps the endpoint at the position the bytes read so far lead to, with a carry of fewer than 14 bytes. |
| WebSocketDecoder.WebSocketLiveEndpoint.HandleWebsocketPayload | sockets/live/WebSocketLiveEndpoint.hpp:493-766 | The decoding loop over one buffer. |
| WebSocketDecoder.WebSocketLiveEndpoint.FreshFrame | sockets/live/WebSocketLiveEndpoint.hpp:529-657 | One round of it when a new frame begins. |
| WebSocketDecoder.WebSocketLiveEndpoint.PendingFrame | sockets/live/WebSocketLiveEndpoint.hpp:634-657 | One round of it when a frame goes on. |
| WebSocketDecoder.WebSocketLiveEndpoint.ReadHeader | sockets/live/WebSocketLiveEndpoint.hpp:534-577 | The header fields, or none if the header is incomplete. |
| WebSocketDecoder.WebSocketLiveEndpoint.StartNewFrame | sockets/live/WebSocketLiveEndpoint.hpp:529-633 | The fields after a header, by the header's meaning, with every refusal. |
| WebSocketDecoder.WebSocketLiveEndpoint.Dispatch | sockets/live/WebSocketLiveEndpoint.hpp:671-753 | A complete message reaches the handler under its first opcode, unmasked if text or binary; pings are answered first; other opcodes disconnect. |
| WebSocketDecoder.WebSocketLiveEndpoint.UnmaskInPlace | sockets/live/WebSocketLiveEndpoint.hpp:703-712 | Exactly the payload's stretch of the buffer is XORed. |
| WebSocketDecoder.WebSocketLiveEndpoint.FinishFrame | sockets/live/WebSocketLiveEndpoint.hpp:659-683 | A final frame is dispatched with what was put aside, another is put aside. |
| WebSocketDecoder.WebSocketLiveEndpoint.ShiftIncompleteHdrToFrontForNextRead | sockets/live/EndpointBase.hpp:96-111 | The incomplete header stands at the front of the buffer and the next read goes behind it. |
| HttpEndpoint.HTTPLiveEndpoint.ReadAll | sockets/live/HTTPLiveEndpoint.hpp:628-656 | For any split of any byte stream into reads, the requests dispatched and the status are those of the bytes taken one by one. |
| HttpEndpoint.HTTPLiveEndpoint.OnPayloadReady | sockets/live/HTTPLiveEndpoint.hpp:628-656 | One read, with the carried line in front of it, keeps the endpoint where the byte-by-byte parser is. |
| HttpEndpoint.HTTPLiveEndpoint.HandlePayload | sockets/live/HTTPLiveEndpoint.hpp:639-655 | The loop over the requests of one read. |
| HttpEndpoint.HTTPLiveEndpoint.ReadRequest | sockets/live/HTTPLiveEndpoint.hpp:672-695 | A request line starts a request, at a line feed alone too, is kept for the next read if incomplete, or closes the endpoint; its headers follow. |
| HttpEndpoint.HTTPLiveEndpoint.ReadHeaders | sockets/live/HTTPLiveEndpoint.hpp:558-626 | Header lines are added under upper-case names with trimmed values; an unfinished line is kept. |
| HttpEndpoint.HTTPLiveEndpoint.FinishHeaders | sockets/live/HTTPLiveEndpoint.hpp:578-619 | The empty line leads to the content, the chunks, the dispatch, or an error, by the headers. |
| HttpEndpoint.HTTPLiveEndpoint.ReadContent | sockets/live/HTTPLiveEndpoint.hpp:459-480 | As much of the body as is missing is taken, and the request dispatched when it is complete. |
| HttpEndpoint.HTTPLiveEndpoint.ReadChunks | sockets/live/HTTPLiveEndpoint.hpp:482-548 | Chunk sizes, chunk data in any pieces, and the trailer. |
| HttpEndpoint.HTTPLiveEndpoint.ReadChunkData | sockets/live/HTTPLiveEndpoint.hpp:524-545 | As much of a chunk as the read has; a complete chunk joins the body. |
| HttpEndpoint.HTTPLiveEndpoint.ReadTrailer | sockets/live/HTTPLiveEndpoint.hpp:499-522 | Trailer lines are skipped up to an empty line, which dispatches the request. |
| HttpEndpoint.HTTPLiveEndpoint.GetLine | sockets/live/HTTPLiveEndpoint.hpp:720-742 | A line without its end, or what is there of it. |
| HttpEndpoint.HTTPLiveEndpoint.DispatchPayload | sockets/live/HTTPLiveEndpoint.hpp:413-440 | The request is handed over and the endpoint awaits the next. |
| HttpEndpoint.CarryFeeds | sockets/live/HTTPLiveEndpoint.hpp:621-625 | Parsing a carried line again from its start restores the parser. |
| HttpText.RequestLineStable | sockets/live/HTTPLiveEndpoint.hpp:679-682 | A complete request line reads the same however much of the next lines is in the buffer. |
| HttpParser.IndependentOfReadsIff | sockets/live/HTTPLiveEndpoint.hpp:672-686 | A line with its end means the same whatever follows it in the buffer iff it has two words; the reading of any other line changes with the next read. |
| HttpText.TrimRemoves | sockets/live/HTTPLiveEndpoint.hpp:550-556 | Trimming removes exactly the spaces and tabs around a text and a carriage return behind it. |
| HttpMessages.RoundTrip | sockets/live/HTTPLiveEndpoint.hpp:558-718 | For any pipeline of well-formed requests (no body, Content-Length, or chunks with extensions and trailers), parsing gives back each request, each from exactly its own bytes (sections 6 and 7.1 of RFC 9112). |
| HttpMessages.RequestFed | sockets/live/HTTPLiveEndpoint.hpp:558-718 | One request is parsed to its method, URI, headers and body and leaves the parser idle. |
| HttpMessages.ContentLengthTakes | sockets/live/HTTPLiveEndpoint.hpp:596-606 | A request whose first Content-Length, the name in any letter case, is the decimal size of the content takes exactly that content, whatever its other fields say (section 6.2 of RFC 9112). |
| HttpMessages.TransferEncodingTakes | sockets/live/HTTPLiveEndpoint.hpp:607-615 | A request without one, whose first Transfer-Encoding is "chunked", takes the pieces that follow, each behind its size in hexadecimal, up to the chunk of size zero. |
| HttpMessages.NeitherTakesNothing | sockets/live/HTTPLiveEndpoint.hpp:616-619 | A request with neither is complete with its empty line. |
| HttpMessages.ContentEncodingRefusedIff | sockets/live/HTTPLiveEndpoint.hpp:582-594 | A header block is refused iff its first Content-Encoding is none of gzip, deflate and br. |
| HttpMessages.MethodRefusedIff | sockets/live/HTTPLiveEndpoint.hpp:681-696 | The endpoint closes over a request line iff its first word is not one of the nine method names, spelled in capitals. |
| HttpMessages.NoVersionRefused | sockets/live/HTTPLiveEndpoint.hpp:681-689 | It closes also over two words with a line feed right behind them. |
| HttpMessages.NoColonPassedOver | sockets/live/HTTPLiveEndpoint.hpp:559-577 | A header line without a colon changes nothing unless it is blank. |
| HttpMessages.LengthRefused | sockets/live/HTTPLiveEndpoint.hpp:596-606 | Parsing stops at a Content-Length that starts with no decimal digit, with nothing dispatched. |
| HttpMessages.ChunkSizeRefused | sockets/live/HTTPLiveEndpoint.hpp:486-497 | Parsing stops at a line between chunks that is not blank and starts with no hexadecimal digit. |
| HttpMessages.ReadRequests | sockets/live/HTTPLiveEndpoint.hpp:628-656 | The endpoint dispatches the requests of any such pipeline, whatever reads it arrives in. |
| HttpMessages.FieldUnchangedIff | sockets/live/HTTPLiveEndpoint.hpp:563-572 | A header field comes back unchanged iff its name is upper case and nothing can be trimmed off name or value. |
| HttpMessages.PrintedParsesIff | sockets/live/HTTPLiveEndpoint.hpp:459-718 | What the header printer prints, and a body framed by those headers, parses to the same method, URI and body, and to the same header map behind the host, iff the URI is one word, the host and the values hold no line feed and the names neither colon nor line feed, no name follows itself, names are upper case, and nothing can be trimmed. |
| HttpMessages.AllSound | sockets/live/HTTPLiveEndpoint.hpp:628-718 | Whatever bytes arrive, every request parsed from them has a URI of one word, header names without a colon and headers without a line feed. |
| HttpMessages.SizedRequestParses | sockets/live/HTTPLiveEndpoint.hpp:459-718 | In particular a request with a decimal Content-Length comes back whole: method, URI, header map and body. |
| HttpMessages.PrintedSizes | sockets/live/HTTPLiveEndpoint.hpp:494-605 | A decimal Content-Length and a hexadecimal chunk size announce exactly the bytes that follow. |
| HttpMessages.ChunkedFed | sockets/live/HTTPLiveEndpoint.hpp:482-548 | A chunked body is the concatenation of its chunks, trailers ignored. |
| HttpMessages.EncodeFieldsToRequestHeader | http/FieldContentUtils.cpp:159-199 | The request line, the host, one line for each run of equal names with values joined by "; ", and an empty line, for every map; an error iff there is a file path. |
| HttpMessages.MergedIff | http/FieldContentUtils.cpp:182-199 | The printer keeps every entry a field of its own iff no name equals the one printed before it. |
| UrlCodec.EncodeStringForURL | http/FieldContentUtils.cpp:98-115 | The encoding of the string, character by character. |
| UrlCodec.DecodeStringFromURL | http/FieldContentUtils.cpp:117-143 | The decoding of the string, or the exception of a malformed escape. |
| UrlCodec.EncodedDecodes | http/FieldContentUtils.cpp:98-143 | Decoding an encoded string always succeeds, never shortens it, and gives it back iff all its bytes are below 128 (section 2.1 of RFC 3986). |
| UrlCodec.EncodeFieldsToURL | http/FieldContentUtils.cpp:145-157 | The pairs of the map, joined by "&"; an error iff there is a file path. |
| UrlCodec.ParseURLEncodingToFields | http/FieldContentUtils.cpp:17-96 | The loop over the content, a run of plain characters at a time, computes what scanning it one piece at a time does. |
| UrlCodec.FormRoundTripIff | http/FieldContentUtils.cpp:17-157 | A form of any bytes parses back to itself iff all of them are below 128 and its last entry has a name and a value; if only the latter fails, exactly that entry is lost. |
| UrlCodec.StringScans | http/FieldContentUtils.cpp:45-83 | An encoded string of any bytes is scanned to what it decodes to, into the name or the value. |
| UrlCodec.DecodedIff | http/FieldContentUtils.cpp:98-143 | What an encoded string decodes to is the string iff all its bytes are below 128, and longer otherwise. |
| UrlCodec.SpellingDecodes | http/FieldContentUtils.cpp:117-143 | Every spelling of a text, each character as itself or escaped with digits of either case and each space also as "+", decodes to that text. |
| UrlCodec.SpellingScans | http/FieldContentUtils.cpp:17-83 | The form parser reads every spelling in unreserved characters, "+" and upper-case escapes as that text. |
| UrlCodec.ScanStopsIff | http/FieldContentUtils.cpp:84-96 | It stops for good at a reserved character and at a percent sign without two upper-case digits behind it. |
| UrlCodec.HexPairIsNumber | http/FieldContentUtils.cpp:117-143 | Two characters behind a percent sign are converted as the C library reads a number in base 16, behind white space and a sign, of which a byte is kept; there is an exception exactly if they are none. |
| UrlCodec.UnreservedAre | http/FieldContentUtils.cpp:103-107 | The characters that stay as they are are those section 2.3 of RFC 3986 lists. |
| Multipart.EncodeToString | http/MultipartPayload.cpp:8-31 | The parts of the form fields, the parts of the files with their names and contents, and the closing boundary. |
| Multipart.DecodePayload | http/MultipartPayload.cpp:55-158 | The scanning loop computes the fields and files of the payload, or its error. |
| Multipart.WholeRoundTrip | http/MultipartPayload.cpp:8-158 | Decoding a printed payload restores its form fields in order, duplicates and all, and its files in the order they were sent, under their field names and with their contents, each less a line end at its own end. |
| Multipart.FilePartDecodes | http/MultipartPayload.cpp:63-156 | One file part is read as its file and changes no form field. |
| Multipart.HeadersCutOff | http/MultipartPayload.cpp:74-135 | Decoding dies of a part whose header lines run to the end of the payload, with or without a line end behind the boundary. |
| Multipart.NothingBehindHeaders | http/MultipartPayload.cpp:74-156 | A part whose headers end with the payload is an empty field. |
| Multipart.NoDispositionRefused | http/MultipartPayload.cpp:79-106 | A part whose header line names no disposition, in any letter case, is an error. |
| Multipart.FileNameFound | http/MultipartPayload.cpp:128-137 | A part with a file name is taken for a file, also when its field name ends in "filename=". |
| Multipart.RoundTrip | http/MultipartPayload.cpp:8-158 | Decoding a printed form restores its fields and the order of duplicates, each value less a line end at its own end, if values omit the boundary and names hold no quote or line end (section 5.1.1 of RFC 2046). |
| Multipart.RoundTripIff | http/MultipartPayload.cpp:8-158 | It restores the form, whatever its names and values, iff no name holds a quote or a line end and no value holds the boundary or ends in a line end. |
| Multipart.DecodeAdds | http/MultipartPayload.cpp:55-158 | Decoding any payload yields only names that stood in quotes on one line, and appends behind the values already found. |
| Multipart.PartDecodes | http/MultipartPayload.cpp:63-156 | One part is read as its field, and the search goes on before the next boundary. |
| Multipart.NoFileName | http/MultipartPayload.cpp:119-126 | No name without a quote can be mistaken for a file name. |
| SendQueue.EveryRun | sockets/live/SSLLiveEndpoint.hpp:214-402 | For every run of sends, partial and blocked writes, callbacks that send again, and disconnections: bytes written, then unsent, then pending are, in order, the payloads that the run's sends and callbacks handed in and were accepted; the counter is the pending byte sum; pending plus unsent stay within the budget; pending sends mean a send in progress, with exactly one drain task posted unless it was lost. |
| SendQueue.AcceptsWhatIsHandedIn | sockets/live/SSLLiveEndpoint.hpp:214-287 | Each action accepts exactly its own payloads, whole: a send on a connected endpoint that the budget has room for, and those of a callback up to the first without room; nothing else is ever accepted. |
| SendQueue.WritesWhatIsReported | sockets/live/SSLLiveEndpoint.hpp:232-326 | Each action puts exactly the bytes on the wire that its writes report. |
| SendQueue.WrittenIsTotal | sockets/live/SSLLiveEndpoint.hpp:232-254 | A synchronous send gets out what its writes report, one after the other, until all is out or one fails. |
| SendQueue.WritesSuffice | sockets/live/SSLLiveEndpoint.hpp:232-254 | Writes that get something out, or would block over TLS, are enough once they add up to all there is or one fails. |
| SendQueue.DropsIff | sockets/live/SSLLiveEndpoint.hpp:214-393 | A connection is dropped exactly by a send, or one of a callback, that the budget has no room for, by a write that breaks, over TCP in a synchronous send also by one that gets nothing out, and by a disconnection. |
| SendQueue.CallbacksOfEveryRun | sockets/live/SSLLiveEndpoint.hpp:328-368 | Callbacks run at most once, in acceptance order, only after all bytes of their send and those before are written, and no completed send misses its callback. |
| SendQueue.NothingAfterDrop | sockets/live/SSLLiveEndpoint.hpp:395-402 | After the state was cleared nothing is written or called back any more. |
| SendQueue.StallsIff | sockets/live/SSLLiveEndpoint.hpp:259-347 | A drain task is lost exactly when the event queue refuses it when first posted, or, in a run of it, the active payload is empty, over TCP the write fails or would block, the callback fails, or it must post itself again and the event queue refuses. |
| SendQueue.StalledForever | sockets/live/SSLLiveEndpoint.hpp:259-368 | A connection whose drain task was lost sends nothing more. |
| SendQueue.DrainTerminates | sockets/live/SSLLiveEndpoint.hpp:289-368 | Writes of at least one byte each empty the queue, if the task's own posts are accepted: everything accepted is written and called back, and the task ends. |
| SendQueue.Conserved | sockets/live/SSLLiveEndpoint.hpp:259-368 | Conservation of bytes in every state at rest. |
| SendQueue.NextInv | sockets/live/SSLLiveEndpoint.hpp:214-402 | Every operation keeps the queue invariant. |
| SendEndpoint.LiveEndpoint.SendAsync | sockets/live/SSLLiveEndpoint.hpp:259-287 | In place: refused and dropped over the budget, queued behind a send in progress, or started. |
| SendEndpoint.LiveEndpoint.Send | sockets/live/SSLLiveEndpoint.hpp:214-257 | In place: queued behind a send in progress, or written out; over TCP refused behind one, and cut off by a write that would block. |
| SendEndpoint.LiveEndpoint.WriteAll | sockets/live/SSLLiveEndpoint.hpp:232-254 | The writing loop gets out what the socket accepts, over TLS trying again when it would block. |
| SendEndpoint.LiveEndpoint.VerifyBackpressureLimit | sockets/live/SSLLiveEndpoint.hpp:370-393 | The budget check, and the drop when it fails. |
| SendEndpoint.LiveEndpoint.ClearAsyncSendState | sockets/live/SSLLiveEndpoint.hpp:395-402 | All send state is cleared. |
| SendEndpoint.LiveEndpoint.SendAsyncCont | sockets/live/SSLLiveEndpoint.hpp:289-326 | One write of the active payload: an error, not finished, finished, or the connection dropped. |
| SendEndpoint.LiveEndpoint.ProcessAsyncSendQueue | sockets/live/SSLLiveEndpoint.hpp:328-368 | One run of the drain task, with the event queue's answer should it post itself again. |
| SendEndpoint.LiveEndpoint.Execute | sockets/live/SSLLiveEndpoint.hpp:214-402 | Any schedule of operations takes the endpoint where the machine goes, and keeps its invariant. |
| SendQueue.SendAsyncInv | sockets/live/TcpIpLiveEndpoint.hpp:113-239 | `sendAsync` keeps the invariant over either transport, with the limit of each. |
| TimerHeap.PushHeap | event_queue/EventQueue.hpp:288-297 | Pushing adds exactly the event and keeps the heap. |
| TimerHeap.PushKeepsRoot | event_queue/EventQueue.hpp:288-297 | An event no earlier than the first does not take its place, not even at the same time. |
| TimerHeap.PopHeap | event_queue/EventQueue.hpp:363-375 | Popping removes exactly the first event and keeps the heap. |
| TimerHeap.RootIsEarliest | event_queue/EventQueue.hpp:363-375 | The first event of a heap is the earliest. |
| TimerHeap.TimedEventQueue.PushEvent | event_queue/EventQueue.hpp:288-297 | Sifting up in place. |
| TimerHeap.TimedEventQueue.PopEvent | event_queue/EventQueue.hpp:363-375 | Sifting down in place. |
| PrecisionEvents.PopRemovesTheOneThatRan | event_queue/EventQueue.hpp:363-375 | Popping after the action removes exactly the event that ran, whatever the action posted. |
| PrecisionEvents.EveryRun | event_queue/EventQueue.hpp:271-375 | Over any run each event that its posts make accepted, by their clock readings, waits or has fired exactly once, none early; with posts on the loop's thread only, events fire in time order. |
| PrecisionEvents.CycleRounds | event_queue/EventQueue.hpp:363-375 | Each round of a firing phase fires one event at the time it reads and accepts what the action posts; a failing action is the last; and a phase that no failure ends stops at a reading at which nothing is due. |
| PrecisionEvents.RunAccepts | event_queue/EventQueue.hpp:271-292 | The events accepted over a run are those posted not in the past while no payload was engaged, and those handed over. |
| PrecisionEvents.OrderKeptIff | event_queue/EventQueue.hpp:271-375 | Over any run, events fire in time order and none that waits is late iff each event handed over by another thread arrived before any later one had fired. |
| PrecisionEvents.HandedOverOutOfOrder | event_queue/EventQueue.hpp:288-299 | A run in which an event handed over by another thread fires after a later one. |
| PrecisionEvents.EndedCycle | event_queue/EventQueue.hpp:363-375 | When the phase ends without an error no waiting event is due and all that are due have fired. |
| PrecisionEvents.EventQueue.PostPrecisionTimedAction | event_queue/EventQueue.hpp:271-292 | In place: accepted iff not in the past and no payload is engaged. |
| PrecisionEvents.EventQueue.FirePrecisionTimedEvents | event_queue/EventQueue.hpp:363-375 | The firing loop in place; it reports an error iff an action that ran failed. |
| LocalQueue.EveryRun | event_queue/EventQueue.hpp:218-269 | Everything put in the local queue runs in that order, once for each time it was put in. |
| LocalQueue.RunRefinesLog | event_queue/EventQueue.hpp:218-269 | Over any run the queue is a log with a cursor: posts, and entries that go on, are added behind; each cycle runs the entry at the cursor. |
| LocalQueue.PostedRunsInTurn | event_queue/EventQueue.hpp:218-269 | An action posted behind i others runs in exactly the (i+1)-th cycle after the post, and so does an asynchronous one posted while no payload is engaged. |
| LocalQueue.CallsPost | event_queue/EventQueue.hpp:218-269 | The calls of an action add exactly its posts, in order, except asynchronous ones made while a payload is engaged. |
| LocalQueue.RunsInTurn | event_queue/EventQueue.hpp:387-404 | An entry with i others ahead runs in exactly the (i+1)-th cycle, whatever else is posted or fails. |
| LocalQueue.OncePerRotation | event_queue/EventQueue.hpp:240-262 | An unfinished asynchronous action is queued behind all others and runs again after each of them has run once. |
| LocalQueue.CycleShape | event_queue/EventQueue.hpp:387-404 | A cycle takes off exactly the front entry; posts, and the entry itself if unfinished, go behind. |
| LocalQueue.EventQueue.RunLocalPhase | event_queue/EventQueue.hpp:387-404 | The local phase of a cycle in place; it reports an error iff the entry failed or had to be posted again and was refused. |
| LocalQueue.EventQueue.PostAsyncAction | event_queue/EventQueue.hpp:240-269 | In place: the queue is the old queue followed by the action, or the old queue and a refusal exactly while a payload is engaged. |
| LocalQueue.EventQueue.PostAction | event_queue/EventQueue.hpp:218-230 | In place: the queue is the old queue followed by the action, and the engaged payload is taken. |
| ProducerRegistry.EverySchedule | event_queue/EventQueue.hpp:452-495 | For every interleaving of searches, counter additions and take-backs: an answer is a slot in range with the thread's own id, no two threads share one, no index is issued twice, and a thread is refused only when all were issued. |
| ProducerRegistry.RegistersAlone | event_queue/EventQueue.hpp:452-495 | A search that nothing interrupts answers a thread that has a slot with it, gives another the next slot if the counter says there is one, and else refuses it and leaves the counter as it was. |
| ProducerRegistry.CacheIsTransparent | event_queue/EventQueue.hpp:452-475 | A cached index of this table, whatever queue left it, never changes the answer of the linear search. |
| ProducerRegistry.CacheReadsPastTheEndIff | event_queue/EventQueue.hpp:456-464 | A cached index left by a larger queue can be read past the end of the table iff the table has a slot and there are more posting threads than the index. |
| ProducerRegistry.PollInRangeIff | event_queue/EventQueue.hpp:407-411 | The counter the event loop polls up to stays within the table on every schedule iff there are no more posting threads than slots, or no slot. |
| ProducerRegistry.CounterOfEveryRun | event_queue/EventQueue.hpp:452-495 | The counter never exceeds the number of posting threads: owners of slots and threads that overshoot are different threads. |
| ProducerRegistry.NextInv | event_queue/EventQueue.hpp:452-495 | Every step keeps the registry invariant, and indices already issued. |
| PayloadSlots.EveryRun | event_queue/EventQueue.hpp:52-108 | Over any run with any mix of posts: objects are destroyed in the order they were built, at most once, wasted ones never; with nothing queued or engaged, all are destroyed iff none was wasted. |
| PayloadSlots.RunIsFifo | event_queue/EventQueue.hpp:52-75 | Over any run, what is queued is what was queued and pushed, plain posts included, less what was popped, oldest first. |
| PayloadSlots.PayloadsGoOn | event_queue/EventQueue.hpp:77-108 | A payload asked for while there is room and none is engaged gets the next slot in turn and is queued by the next post. |
| PayloadSlots.WithoutWaste | event_queue/EventQueue.hpp:52-108 | If no payload is wasted, the slot handed out next is used by no queued or executing entry, and the objects are destroyed in order without exception. |
| PayloadSlots.AliasesIff | event_queue/EventQueue.hpp:77-89 | In any run, the next slot is that of a queued entry iff a multiple of the capacity was obtained since, the entry's own payload included. |
| PayloadSlots.AliasReachableIff | event_queue/EventQueue.hpp:77-89 | Wasting payloads can bring a slot in use back to the front iff the queue has two slots or more. |
| PayloadSlots.SlotFree | event_queue/EventQueue.hpp:77-89 | Without waste the next slot differs from that of every queued entry while the queue has room. |
| PayloadSlots.ThreadSpecificQueue.GetNextActionObject | event_queue/EventQueue.hpp:77-108 | In place: the next slot round robin, or none when one is engaged already, which is dropped. |
| PayloadSlots.ThreadSpecificQueue.Push | event_queue/EventQueue.hpp:52-62 | In place: the engaged entry or a plain one is queued. |
| PayloadSlots.ThreadSpecificQueue.RunFront | event_queue/EventQueue.hpp:414-421 | In place: the front entry is run, its object destroyed, and it is popped. |
| ManualTimer.EveryRun | timers/ManualTimer.hpp:17-54 | An active timer has a callback to come unless a post was refused, and there are never more than one, one for each restart while one was still to come, and one for each post that put in two; posts of a precision timer never do. |
| ManualTimer.TwoCallbacksIff | timers/ManualTimer.hpp:17-54 | In any run, two callbacks are to come at some moment iff the stopped timer was started, and the post accepted, while one was still to come, or, for an idle timer only, a post was made on the loop's thread. |
| ManualTimer.CallbacksGrow | timers/ManualTimer.hpp:33-54 | While the timer stays active, whatever the actions do, unless it is restarted or a post is refused: the callbacks of a precision timer keep their number, and those of an idle timer become one more with every firing. |
| ManualTimer.StopSilences | timers/ManualTimer.hpp:30-36 | After a stop the action does not run until the next start, and the callbacks still to come run out one by one. |
| ManualTimer.FiresEachTime | timers/ManualTimer.hpp:17-54 | From a start whose post is taken every callback runs the action, as long as the timer stays active and no post is refused. |
| ManualTimer.CallbackDoes | timers/ManualTimer.hpp:33-54 | A callback of a stopped timer does nothing; that of an active one runs the action once, and the timer stays active, and posts the next, iff the action succeeds and its last call left it active. |
| ManualTimer.StartFires | timers/ManualTimer.hpp:17-29 | A stopped timer that is started is active and fires with its next callback; a start of an active one does nothing. |
| ManualTimer.RepeatingTimer.RunCallback | timers/ManualTimer.hpp:33-54 | The callback in place. |

## Left out

- SpscRing.EverySchedule: atomic steps are sequentially consistent; the orderings of the C++ memory model are not modelled.
- SpmcEndpoints.BroadcastDelivery: the back-pressure handler is the default one; one supplied by the caller may drop messages.
- SpmcEndpoints.ServerShmPODProducerEndpoint.PushMessage: the endpoint holds its rings as values, so that two processes share one ring object is shown by the machine only, and the consumers and attaching processes do not move during a call.
- ScmpEndpoints.PollChannel: the ring is a value here too, and the clients do not move during the call.
- ChannelAllocation.EveryAttach: a process that dies while it holds the allocation mutex is not modelled.
- ChannelAllocation.ChannelRegions: addresses are unbounded; a segment whose size does not fit the machine's address width is not modelled.
- WebSocketDecoder.WebSocketLiveEndpoint.StartNewFrame: a declared length within ten bytes of 2^32 wraps in the code; the model stops at it, as it does after an unmasked frame from a client, when the code drops the rest of that read and goes on.
- WebSocketDecoder.WebSocketLiveEndpoint.Dispatch: the handler and the pong succeed; inflating a message marked compressed is not modelled, the mark is passed on.
- WebSocketDecoder.WebSocketLiveEndpoint.ShiftIncompleteHdrToFrontForNextRead: the code copies with `memcpy`, which leaves overlapping ranges undefined; the model copies forwards.
- WebSocketMessages.RoundTrip: masked messages in several frames are not in it; `WebSocketMessages.FragmentsArriveIff` says when they decode to themselves.
- HttpEndpoint.HTTPLiveEndpoint.ReadAll: a first line without two words is completed by the code from whatever else the read holds, so it has no meaning of its own; the model stops at it with the status `Irregular`, exactly then.
- HttpEndpoint.HTTPLiveEndpoint.ReadRequest: after closing over a bad request line the code goes on with the rest of that read; the model stops.
- HttpEndpoint.HTTPLiveEndpoint.FinishHeaders: a Content-Length that is no number leaves the code with an uninitialised size; the model stops with the status `BadSize`, and so for chunk sizes.
- HttpEndpoint.HTTPLiveEndpoint.DispatchPayload: a body in a known content encoding is handed over as it came; decompression is not modelled, and the handler succeeds.
- HttpEndpoint.HTTPLiveEndpoint.OnPayloadReady: a carried line is assumed to fit the inbound buffer. Headers are kept in arrival order instead of in a multimap, which the lookups cannot tell.
- SendQueue.EveryRun: one connection without a rate limit; what is sent after the connection was dropped, and event handlers that refuse a send, are not modelled.
- SendEndpoint.LiveEndpoint.SendAsync: a send on a dropped connection returns at once; the code does not check and hands it to a closed socket.
- SendEndpoint.LiveEndpoint.Send: the loop ends when the socket's answers say so; a socket that blocks for ever makes the code spin.
- TimerHeap.PopHeap: which of several events at the same time comes up next is fixed by the standard library's heap and may differ from the model's; no theorem depends on it.
- LocalQueue.EveryRun: only the local phase of a cycle; the polled endpoints and other threads' queues appear as posts between cycles.
- ProducerRegistry.EverySchedule: reading and writing a table entry is one step.
- Multipart.RoundTripIff: a boundary with a carriage return, which section 5.1.1 of RFC 2046 does not allow but the printer accepts, can overlap a line end and is not covered.
- Multipart.DecodePayload: the temporary files that file parts are written to are kept as contents in arrival order.
- ManualTimer.EveryRun: clocks are left out; the callbacks of a timer run one at a time, at moments the run chooses.
- Sockets, TLS, epoll, `shm_open`, threads, wall clocks, compression, hashing and the WebSocket upgrade are inputs or absent.
- The HTTP client side, file sending and JSON encoding add no state of their own kind.
- Configuration, factories, coordinators, listeners, the crash handler and time stamps are wiring.
