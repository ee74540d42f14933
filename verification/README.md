# SatLink-Z7 verification

A Dafny model of the algorithms that SatLink-Z7 cannot afford to get wrong, with proofs of what they
promise. `dafny verify dfyconfig.toml` checks the whole project.

The model follows the source file by file. Code that updates state step by step is a class or a method
with loops, proved against a specification function; what the code is for is then proved about that
function, for every input, every run or every interleaving.

| area | modules | what is proved |
|---|---|---|
| Convolutional code and Viterbi decoder | `ConvCode`, `Viterbi`, `ViterbiTies`, `ViterbiDecoder` | the output of the encoder bit by bit at all five rates; the decoder returns a most likely word for every soft input, and which one on a tie; encoding is injective at every rate, so clean input decodes to what was encoded; no metric leaves 32 bits, whatever the block length |
| Shared-memory message ring | `RingLayout`, `IpcRing`, `RingConcurrent`, `RingProgress` | write and read are append and take-first across index wrap and padding; under every interleaving of single memory accesses the consumer delivers a prefix of what was written, and each core makes progress in a number of its own steps that is known beforehand |
| Telemetry transfer frames | `SpacePacket`, `TmFrame`, `TmStream`, `TmMux`, `TmMultiplexer`, `TmDemux`, `TmDemultiplexer`, `TmLink`, `TmForeign`, `TmCounts` | nothing accepted is lost or reordered by multiplexing; over a lossy link exactly the packets all of whose frames arrived are delivered, and the loss counter is right exactly when no gap reaches 256; frames of other spacecraft leave no trace, and a pointer resynchronises a channel whatever it held |
| CAN bootloader | `Image`, `CanBoot`, `CanBootLaws`, `CanBootSession`, `FlashProtocol`, `CanBus`, `HkcClient` | the bootloader only jumps into an image that passes the full check at that moment, and only for one of two causes; every status it answers has its exact cause; a download that returns normally has put the whole image in place, whatever the bus lost; which losses the retries recover and which make it fail, exactly |
| Page tables | `Mmu`, `MmuTables` | the built two-level table agrees with the flat region list at all 2^32 addresses exactly when a condition holds that can be read off the list, and it holds for the board |
| Physical frames | `FrameHeader`, `FrameLayout`, `Mapper`, `Pn9`, `SequencePeriods`, `FrameBlock`, `FrameBuilder`, `FrameReceiver` | the builder as a whole, bit by bit and symbol by symbol; the receiver takes exactly the symbols it laid out, and the information block survives the round trip |
| Checksums | `Crc16`, `Crc32` | table forms equal the bit-at-a-time forms; composition, residue, error detection |
| Packets and time | `PusPacket` | decode undoes encode exactly when the fields fit; time conversion is lossless exactly in the representable range |
| Link adaptation and DMA | `Acm`, `AcmLaws`, `AcmControl`, `AxiDma` | when each decision rises or falls, hysteresis, how fast a level can rise, the whole trajectory under constant conditions; buffer ownership in every interleaving |

`Arith` and `Bytes` hold remainders, bit masks and byte order shared by the others.

Six findings are stated as conditions, because the property does not hold without them:

- The 32-bit doubling loop that sizes the ring ends if and only if less than 2 GiB follow the header
  (`IpcRing.DoublingEndsCondition`), and an empty ring accepts every payload if and only if its area has
  2048 bytes or more (`RingLayout.ProgressCondition`).
- The table builder falls back to one section for a mixed megabyte when its eight second-level tables are
  used up (`Mmu.AgreesEverywhereIff`).
- A boot request can outlive the image it was accepted for: the session keeps a pending request backed by
  a valid image if and only if no download starts while it is pending (`CanBoot.RequestStaysBackedIff`, over
  whole runs `CanBoot.RunStaysBackedIff`). Only the order of the bootloader's main loop prevents a jump then.
- Repeating START or END is refused, so a step whose answer is lost fails although the target has accepted it
  (`CanBus.ScriptedExchange`): for every plan of losses a download succeeds if and only if every chunk has one
  answered attempt and for START and END the first delivered attempt is the answered one
  (`HkcClient.HkcClient.Flash`). The protocol's header file promises harmless retransmission for DATA only.
- The loss counter of a virtual channel is right if and only if fewer than 256 fields are missing in a row
  (`TmDemux.CounterIsRightIff`); what is delivered is right already when no gap is a multiple of 256
  (`TmDemux.DeliveryBehaviour`).
- A first-header pointer puts a channel back on the stream whatever it held (`TmForeign.PointerResynchronises`),
  except when the channel is synchronised with less than a header buffered: then it is not looked at
  (`TmForeign.PointerIsIgnored`).

## Model

| member | source | states |
|---|---|---|
| ConvCode.CodedBits | libs/modem/src/conv.c:53-68 | the count is the number of bits the puncturing pattern lets through for all information and tail steps, 0 for an unknown rate |
| ConvCode.PhaseIsRemainder | libs/modem/src/conv.c:62-66 | the puncturing phase that wraps at the period is the step number modulo the period, at every rate |
| ConvCode.ParityIsTapSum | libs/modem/src/conv.c:35-44 | the xor-folding parity of the masked register word is the number of its tapped bits modulo 2, for both generators |
| ConvCode.BranchIsParity | libs/modem/src/conv.c:46-51 | the branch outputs of the trellis are the folding parities of the word with the input bit shifted in, the second one inverted |
| ConvCode.BranchesDiffer | libs/modem/src/conv.c:46-51 | the two branches out of any state differ in both outputs, because both generators tap the newest bit |
| ConvCode.SentTellsTheBit | libs/modem/src/conv.c:27-33 | whatever the phase, the bits sent in a step determine the input bit |
| ConvCode.EncodingIsInjective | libs/modem/src/conv.c:27-110 | at every rate, two words with the same punctured codeword are the same word |
| ConvCode.CodewordIsPunctured | libs/modem/src/conv.c:15-51 | without the trellis: two bits for each input, the exclusive or of it and the inputs 1, 2, 3 and 6 before, and the negated one of it and those 2, 3, 5 and 6 before; of these a rate keeps fixed places of every 4, 6, 10 or 14, in order |
| ConvCode.RateIsExact | libs/modem/src/conv.c:27-33 | at each of the rates 1/2, 2/3, 3/4, 5/6 and 7/8, k steps send n bits, for any number of periods |
| ConvCode.Encode | libs/modem/src/conv.c:70-112 | the output is the punctured rate 1/2 code of the information bits and six zero bits, in closed form and as the codeword of the trellis; the rest of the buffer is untouched; a buffer too small or an unknown rate is refused and writes nothing |
| Viterbi.MetricIsCorrelation | libs/modem/src/conv.c:165-180 | the metric accumulated along a path is the correlation of its codeword with the soft values |
| Viterbi.BestIsUpperBound | libs/modem/src/conv.c:157-184 | the metric of a state bounds the metric of every path into it, from every start state |
| Viterbi.SurvivorAttainsBest | libs/modem/src/conv.c:157-184 | the path selected by the decisions reaches that bound |
| Viterbi.SurvivorStartsAtZero | libs/modem/src/conv.c:132-137 | the surviving path into state 0 started in state 0, for blocks of up to 2048 bits |
| Viterbi.DecodedIsMostLikely | libs/modem/src/conv.c:116-231 | no information word of the same length has a codeword that correlates better with the soft values than the decoded one, for all inputs and rates |
| Viterbi.DecodeEncodeRoundTrip | libs/modem/src/conv.c:70-231 | soft values that are nonzero with the signs of a codeword decode to the word it encodes |
| ViterbiTies.TiesGoToZero | libs/modem/src/conv.c:165-184 | every other word that is exactly as likely as the decoded one has a 1 at the latest place where the two differ, so the decision is determined |
| ViterbiTies.ErasedDecodesToZeros | libs/modem/src/conv.c:116-231 | soft values that are all zero decode to the all-zero word |
| Viterbi.SixStepsUp | libs/modem/src/conv.c:140-197 | in six steps every state reaches every other at a cost of at most 1536 |
| Viterbi.SpreadIsBounded | libs/modem/src/conv.c:185-197 | from the sixth step on two metrics differ by at most 3072, whatever the block length |
| ViterbiDecoder.MetricBound | libs/modem/src/conv.c:185-197 | every normalised metric lies in [-3072, 0] from the sixth step on, and within the initial spread before |
| ViterbiDecoder.AddCompareSelect | libs/modem/src/conv.c:156-184 | one step takes the better branch into each of the 64 states, the older-zero one on a tie, without leaving int32 |
| ViterbiDecoder.Renormalise | libs/modem/src/conv.c:185-197 | subtracting the best metric keeps all differences, the best becomes 0 and the clamp never applies |
| ViterbiDecoder.Forward | libs/modem/src/conv.c:132-197 | after all steps every stored decision is the choice of the optimal path at its step and state |
| ViterbiDecoder.TraceBack | libs/modem/src/conv.c:212-229 | following the decisions back packs exactly the decoded word, zero fill in the last byte, nothing behind it |
| ViterbiDecoder.Margin | libs/modem/src/conv.c:199-210 | the reliability metric is what the best path into state 0 is ahead of the best path into any other state, as a 32-bit word |
| ViterbiDecoder.Decode | libs/modem/src/conv.c:116-231 | refuses exactly unknown rates, short input and long blocks; otherwise the output is the decoded word, no word of that length is more likely, and the metric is its margin |
| RingLayout.ConsistentAppend | libs/amp/src/ipc_ring.c:117-161 | storing padding and record at the head turns a consistent ring with queue q into one with q and the new message, across index wrap and the end of the area |
| RingLayout.RecordBytes | libs/amp/src/ipc_ring.c:149-156 | a record is length, type and sequence number in little-endian order, then the payload |
| RingLayout.PadIsLeast | libs/amp/src/ipc_ring.c:127-131 | with any less padding the record would run past the end of the area |
| RingLayout.ConsistentSkip | libs/amp/src/ipc_ring.c:180-192 | skipping padding leaves the queue as it is, and what follows is not padding |
| RingLayout.ConsistentTake | libs/amp/src/ipc_ring.c:193-216 | the record at the tail is the first message, and moving the tail past it leaves the rest of the queue |
| RingLayout.ProgressCondition | libs/amp/src/ipc_ring.c:117-135 | an empty ring accepts every payload of up to 512 bytes at every position if and only if its area has at least 2048 bytes |
| IpcRing.DataSizeFor | libs/amp/src/ipc_ring.c:56-69 | the largest power of two that fits behind the header, 0 when 64 bytes do not fit |
| IpcRing.DoublingEndsCondition | libs/amp/src/ipc_ring.c:63-67 | the sizing loop ends if and only if the space is below 2 GiB |
| IpcRing.Ring.Attach | libs/amp/src/ipc_ring.c:88-105 | succeeds exactly on a region with the magic and the size that fits it, and then starts at sequence number 0 |
| IpcRing.Ring.Init | libs/amp/src/ipc_ring.c:71-86 | makes an empty, consistent ring exactly when there is room |
| IpcRing.Ring.Used | libs/amp/src/ipc_ring.c:107-110 | the wrapped difference of the indices is the number of bytes produced and not consumed |
| IpcRing.Ring.EmptyRingTakes | libs/amp/src/ipc_ring.c:117-135 | on an empty ring a legal message is taken exactly where the progress condition says so, and always with 2048 bytes |
| IpcRing.Ring.Write | libs/amp/src/ipc_ring.c:117-161 | appends the message with the next sequence number or, when refused as reserved type, too big or full, changes nothing |
| IpcRing.Ring.Read | libs/amp/src/ipc_ring.c:163-218 | takes the first message intact; an empty queue or a small buffer leaves it in place and reports the size needed; the skip loop runs at most twice and a consistent ring is never called corrupt |
| RingConcurrent.ProducerKeeps | libs/amp/src/ipc_ring.c:126-160 | every single store and publication of the producer keeps the two-core invariant and changes no byte between tail and head |
| RingConcurrent.ConsumerKeeps | libs/amp/src/ipc_ring.c:169-217 | every single load and publication of the consumer keeps it and delivers nothing or the first queued message; that it does deliver is stated by the rows of `RingProgress` |
| RingConcurrent.DeliveredIsPrefix | libs/amp/src/ipc_ring.c:117-218 | after any interleaving the delivered messages are a prefix of those written, intact and numbered consecutively, and no corruption was reported |
| RingConcurrent.PublishedBytesAreNeverOverwritten | libs/amp/src/ipc_ring.c:117-161 | no step of any interleaving changes a published byte |
| RingProgress.ConsumerIsWaitFree | libs/amp/src/ipc_ring.c:163-218 | from any state with a queued message, under every interleaving with the producer and a large enough buffer, the first message is delivered by exactly the foretold step of the consumer and none before |
| RingProgress.ConsumerAlone | libs/amp/src/ipc_ring.c:163-218 | a consumer that is about to read delivers the first message after 13 steps and one per payload byte, and three or six more when padding is in front of it |
| RingProgress.SmallBufferDeliversNothing | libs/amp/src/ipc_ring.c:199-203 | with buffers smaller than the first message it is never delivered and stays first, under every interleaving |
| RingProgress.ProducerIsWaitFree | libs/amp/src/ipc_ring.c:132-160 | once there was room, under every interleaving the message is published by exactly the foretold step of the producer and not before |
| RingProgress.ProducerAlone | libs/amp/src/ipc_ring.c:117-161 | a producer between calls has sent a legal message after a stated number of steps if and only if padding and record fit in the free space, and otherwise nothing |
| RingProgress.NoRoomNoMessage | libs/amp/src/ipc_ring.c:132-135 | without room nothing is sent however often the producer tries |
| RingProgress.MessageGetsThrough | libs/amp/src/ipc_ring.c:117-218 | through an empty ring of 2048 bytes or more every legal message is delivered, with its number |
| SpacePacket.HeaderRoundTrip | libs/pus/src/space_packet.cpp:141-170 | a primary header whose fields fit decodes to itself, with version 0, whatever follows it |
| SpacePacket.IdleIsWellFormed | libs/pus/src/space_packet.cpp:252-258 | a fill packet is well formed and recognised as idle |
| SpacePacket.HeaderPlaces | libs/pus/src/space_packet.cpp:154-170 | the bytes and bits in which each field of a primary header is found |
| SpacePacket.IdleBytes | libs/pus/src/space_packet.cpp:252-258 | a fill packet starts 07 FF C0 00, carries its length less seven, and is filled with 55 |
| TmFrame.HeaderRoundTrip | libs/pus/src/tm_frame.cpp:17-40 | a transfer frame header decodes to itself, with version 0 |
| TmFrame.EncodedStatus | libs/pus/src/tm_frame.cpp:17-27 | the status field says no secondary header, packets in forward order and no segments, and the counts are in bytes 2 and 3 |
| TmMux.FillConserves | libs/pus/src/tm_frame.cpp:116-136 | the bytes filled in and the rest kept are the packets taken from the queue, in order, then whole idle packets |
| TmMux.NextFieldConserves | libs/pus/src/tm_frame.cpp:99-138 | every frame keeps: fields sent plus pending rest are the packets back to back, each first-header field names the first packet start, and non-fill packets plus queue are what was accepted |
| TmMux.EnqueueConserves | libs/pus/src/tm_frame.cpp:42-52 | accepting a packet keeps the same, with the packet appended |
| TmMux.FillDrains | libs/pus/src/tm_frame.cpp:116-136 | filling takes its space off the queued bytes, or empties the queue with at most six bytes of fill left over |
| TmMux.OneFillPacket | libs/pus/src/tm_frame.cpp:116-136 | at most one fill packet goes into a field, behind everything queued, and leaves at most six bytes over |
| TmMux.NextFieldDrains | libs/pus/src/tm_frame.cpp:99-138 | each frame of a channel with data brings it at least one frame closer to empty |
| TmMux.NothingLost | libs/pus/src/tm_frame.cpp:65-172 | when every field arrives, the survivors are all non-idle packets |
| TmMultiplexer.NextKeepsOk | libs/pus/src/tm_frame.cpp:65-138 | at most one channel is ever in the middle of a packet, and the idle channel carries none |
| TmMultiplexer.Drains | libs/pus/src/tm_frame.cpp:54-138 | without new packets nothing is left to send after a number of frames bounded by the pending bytes |
| TmCounts.FramesAreNumbered | libs/pus/src/tm_frame.cpp:65-101 | over every sequence of events, frame n carries n modulo 256 as its master channel count, and as its virtual channel count the number of frames before it on its channel, idle channel included |
| TmCounts.OfferedIsAcceptedOrDropped | libs/pus/src/tm_frame.cpp:42-52 | over every sequence of events every packet offered is accepted or counted as dropped, and no queue exceeds its limit |
| TmMultiplexer.FrameMultiplexer.Enqueue | libs/pus/src/tm_frame.cpp:42-52 | queues the packet, or counts it as dropped for an invalid channel, a short packet or a full queue |
| TmMultiplexer.FrameMultiplexer.HasData | libs/pus/src/tm_frame.cpp:54-58 | true exactly when some channel has a queued packet or a pending rest |
| TmMultiplexer.FrameMultiplexer.NextFrame | libs/pus/src/tm_frame.cpp:65-138 | the frame array and the new state are those of the specification, and the state stays valid |
| TmDemux.ChannelIsRobust | libs/pus/src/tm_frame.cpp:140-238 | for arbitrary field contents the buffer stays under six bytes or a strict prefix of an acceptable packet, the missing length is positive when computed, and delivered spans have their announced size |
| TmDemux.LossCountIsExactIff | libs/pus/src/tm_frame.cpp:189-202 | the loss counter grows by the gap modulo 256, so it is right if and only if fewer than 256 fields are missing |
| TmDemux.DeliveryBehaviour | libs/pus/src/tm_frame.cpp:140-238 | for every loss pattern in which no gap is a multiple of 256, a channel delivers exactly the non-idle packets all of whose fields arrived, in order and unchanged |
| TmDemux.CounterIsModulo | libs/pus/src/tm_frame.cpp:189-202 | for every loss pattern and every field content the counter is the sum of the gaps modulo 256 |
| TmDemux.CounterIsRightIff | libs/pus/src/tm_frame.cpp:189-202 | the counter is the number of missing fields if and only if every gap is below 256 |
| TmDemux.LossBehaviour | libs/pus/src/tm_frame.cpp:140-238 | with gaps below 256 a channel delivers exactly the packets all of whose fields arrived and counts exactly the fields missing between first and last arrival |
| TmDemultiplexer.PushKeepsOk | libs/pus/src/tm_frame.cpp:174-238 | an arbitrary frame keeps every channel consistent and only ever adds well-formed packets to what was delivered |
| TmForeign.HeaderPlaces | libs/pus/src/tm_frame.cpp:29-40 | the bytes and bits in which each field of a frame header is found |
| TmForeign.ForeignOnlyCounts | libs/pus/src/tm_frame.cpp:176-182 | a frame of another spacecraft or version, with any contents, is counted as such and changes nothing else |
| TmForeign.IdleOnlyCounts | libs/pus/src/tm_frame.cpp:183-187 | a frame with the idle pointer, with any contents, is counted as idle and changes nothing else |
| TmForeign.OwnActsOnItsChannel | libs/pus/src/tm_frame.cpp:188-238 | any other frame acts on its own channel only and delivers on it |
| TmForeign.ForeignFramesAreInvisible | libs/pus/src/tm_frame.cpp:174-238 | a stream with foreign frames mixed in anywhere, and any losses, leaves the channels, deliveries and all counters but two that it would leave without them |
| TmForeign.CountersAgree | libs/pus/src/tm_frame.cpp:174-187 | after any stream the packets counted are those delivered, and the wrong spacecraft those that arrived |
| TmForeign.ExtractCuts | libs/pus/src/tm_frame.cpp:140-172 | any buffer is cut into well-formed packets, of which the non-idle ones are delivered, and a rest that is kept, or dropped when it begins no acceptable packet |
| TmForeign.PointerResynchronises | libs/pus/src/tm_frame.cpp:203-238 | unless less than a header is buffered, a first-header pointer puts the channel where the data behind it lead, whatever was buffered; the packet in progress is delivered if and only if it ends there |
| TmForeign.PointerIsIgnored | libs/pus/src/tm_frame.cpp:219-237 | with less than a header buffered and no gap, the channel takes no notice of a first-header pointer |
| TmForeign.ImpossiblePointer | libs/pus/src/tm_frame.cpp:204-209 | a pointer behind the data field drops the buffer and synchronisation and delivers nothing |
| TmForeign.WaitsForStart | libs/pus/src/tm_frame.cpp:189-215 | after a gap or without synchronisation nothing is delivered from a field in which no packet starts |
| TmForeign.ResyncsAre | libs/pus/src/tm_frame.cpp:189-237 | what is counted as a resynchronisation: bytes dropped at a gap, a pointer that contradicts the packet in progress, and data that begin no packet |
| TmDemultiplexer.FrameDemultiplexer.ExtractPackets | libs/pus/src/tm_frame.cpp:140-172 | the loop hands over the complete packets of the buffer in order and keeps the rest, or drops it and synchronisation on a malformed one |
| TmDemultiplexer.FrameDemultiplexer.Push | libs/pus/src/tm_frame.cpp:174-238 | the frame has the specified effect on the channels, the statistics and the deliveries; the rows of `TmForeign` state that effect frame by frame |
| TmLink.StepKeepsInv | libs/pus/src/tm_frame.cpp:42-138 | after any enqueue or frame, what each channel has put on the air is its history, and the history conserves what it accepted |
| TmLink.ReceiveSeparates | libs/pus/src/tm_frame.cpp:174-238 | receiving the surviving frames of all channels is receiving those of each channel on its own |
| TmLink.LinkLossBehaviour | libs/pus/src/tm_frame.cpp:42-238 | for every sequence of packets and frames from the start and every loss pattern without a gap that is a multiple of 256 on its channel, each channel delivers exactly the non-idle packets all of whose frames arrived; the loss counter is the sum of the gaps modulo 256, and right on a channel exactly when its gaps are below 256 |
| TmLink.LinkWithoutLoss | libs/pus/src/tm_frame.cpp:42-238 | without loss a drained channel has delivered every non-idle packet it accepted, in order |
| Image.HeaderRoundTrip | libs/hkc_proto/src/image.c:12-58 | a written header reads back as it was, with the computed checksum, in front of anything |
| Image.HeaderBytes | libs/hkc_proto/src/image.c:12-33 | the place of every field of a written header |
| Image.VerdictMeans | libs/hkc_proto/src/image.c:60-105 | what each verdict says of the bytes, in the order of the checks: magic, version, header checksum, place, length, payload checksum |
| Image.VerifiesIffWritten | libs/hkc_proto/src/image.c:60-105 | the check passes if and only if the bytes are a written header that describes the payload behind it for this region, then anything |
| Image.VerifiedInFront | libs/hkc_proto/src/image.c:60-105 | bytes behind an accepted image change neither the verdict nor the header |
| CanBoot.EveryRequestIsAnswered | libs/hkc_proto/src/canboot.c:12-27 | every request gets one response of legal length naming its opcode, zero-filled |
| CanBoot.CheckRegionIsBootable | libs/hkc_proto/src/canboot.c:29-36 | a check of the first bytes that passes means the whole region passes, with the same entry point |
| CanBoot.HandleKeepsSafe | libs/hkc_proto/src/canboot.c:157-223 | after every frame: a valid image is not being received over, passes the full check now and has the recorded entry; a reception stays within the announced size and the region |
| CanBoot.HandleWritesBelowImageSize | libs/hkc_proto/src/canboot.c:90-123 | only an accepted chunk during a reception changes the region, between the bytes received before and after and below the announced size |
| CanBootLaws.AbortOnlyEndsReception | libs/hkc_proto/src/canboot.c:211-217 | ABORT is answered positively, ends a reception and changes nothing else, in any state |
| CanBootLaws.StartAfterAbort | libs/hkc_proto/src/canboot.c:65-88 | after ABORT, whatever the session was doing, the region is as it was and a START with a legal size begins a reception from nothing |
| CanBootLaws.StartAnswers | libs/hkc_proto/src/canboot.c:65-88 | each status of START has its exact cause; an accepted one begins a reception with sequence number 0 and the image no longer valid |
| CanBootLaws.DataAnswers | libs/hkc_proto/src/canboot.c:90-123 | DATA is positive exactly for a repeat of the last chunk, which changes nothing, or for the expected one that fits, which is stored whole; the other statuses have their exact causes |
| CanBootLaws.EndAnswers | libs/hkc_proto/src/canboot.c:125-155 | END is positive exactly for a complete reception with the right checksum of an image for this region, and then the image is valid; a wrong checksum or image ends the reception, other refusals change nothing |
| CanBootLaws.BootAnswers | libs/hkc_proto/src/canboot.c:200-210 | BOOT is positive exactly with a valid image, and sets the request only then |
| CanBootLaws.PingAnswers | libs/hkc_proto/src/canboot.c:175-181 | PING reports version, validity and state, and only reads |
| CanBootLaws.UnknownAnswers | libs/hkc_proto/src/canboot.c:218-220 | any other opcode is answered as unknown and changes nothing |
| CanBoot.JumpStartsVerifiedImage | firmware/hkc/bootloader/main.c:95-152 | whatever the region held at reset and whatever arrives, a jump goes to the entry of an image that passes the full check then, inside its checksummed payload |
| CanBootLaws.JumpHasCause | firmware/hkc/bootloader/main.c:113-135 | a jump has one of two causes: a BOOT request among the inputs, or an intact image at reset, no request to stay, and 100000 polls that brought nothing |
| CanBootLaws.TalkedNeedsBoot | firmware/hkc/bootloader/main.c:117-135 | once a request has arrived only BOOT leads to a jump |
| CanBootLaws.SilenceBootsIff | firmware/hkc/bootloader/main.c:113-135 | after n polls of silence the loop has jumped if and only if the image verifies, nobody asked it to stay and n is at least 100000 |
| CanBoot.RequestStaysBackedIff | libs/hkc_proto/src/canboot.c:157-223 | a frame leaves a pending boot request backed by a valid image if and only if it does not start a download while one is pending |
| CanBoot.RunStaysBackedIff | libs/hkc_proto/src/canboot.c:157-223 | over any sequence of frames the request is backed at every moment if and only if no download starts while one is pending |
| CanBoot.BootRequestOutlivesImage | libs/hkc_proto/src/canboot.c:200-210 | the failing run: BOOT, then START, leaves a request pending without a valid image |
| CanBootSession.Session.Init | libs/hkc_proto/src/canboot.c:38-63 | refuses a region not larger than a header; otherwise the session is idle and knows whether the region already holds an image |
| CanBootSession.Session.HandleData | libs/hkc_proto/src/canboot.c:90-123 | the in-place handler stores the chunk, acknowledges a repeat without storing, or refuses, exactly as specified |
| CanBootSession.Session.HandleEnd | libs/hkc_proto/src/canboot.c:125-155 | the new session, the status and the reported checksum are those of the specification |
| CanBootSession.Session.Handle | libs/hkc_proto/src/canboot.c:157-223 | the record and region after a frame, and the response, are those of the specification; foreign frames change nothing; the rows of `CanBootLaws` state them opcode by opcode |
| CanBootSession.RunBootloader | firmware/hkc/bootloader/main.c:95-152 | the polling loop jumps exactly when the specified run does, to the session's entry point |
| FlashProtocol.AnswersDiffer | linux/hkc/src/hkc_client.cpp:126-132 | answers to steps one or two apart are told apart, although sequence numbers repeat after 256 chunks |
| FlashProtocol.OwnAnswerMatches | linux/hkc/src/hkc_client.cpp:126-132 | whatever the target answers to a request passes the client's test for it |
| FlashProtocol.MatchMeans | linux/hkc/src/hkc_client.cpp:126-132 | what passes the test: the response identifier, the opcode with its top bit set and two bytes, for DATA three and the sequence number |
| FlashProtocol.TargetStep | libs/hkc_proto/src/canboot.c:65-155 | a target that has accepted a requests answers request a or the one before: it advances by exactly one or stays, and a positive answer to request a means it advanced |
| FlashProtocol.RepeatIsOkOnlyForChunks | libs/hkc_proto/src/canboot.c:65-155 | a repeated request changes nothing, and is answered positively if and only if it is a chunk |
| FlashProtocol.HappenKeepsInv | linux/hkc/src/hkc_client.cpp:85-118 | every delivery and every loss on the bus keeps: the target has accepted the client's step or exactly those before it, late requests precede current ones, and a positive answer to the current step proves it was accepted |
| FlashProtocol.AnswerAdvances | linux/hkc/src/hkc_client.cpp:161-181 | a positive answer lets the client go on with the invariant of the next step |
| FlashProtocol.RegionHoldsPrefix | linux/hkc/src/hkc_client.cpp:145-182 | at every moment the region holds the received prefix of the image, and the target's progress is the client's step or one more |
| CanBus.ExchangeKeepsInv | linux/hkc/src/hkc_client.cpp:85-118 | however an exchange of a download's request ends, the download invariant holds, and an answer is one to this request |
| CanBus.ScriptedExchange | linux/hkc/src/hkc_client.cpp:85-118 | for every course of lost requests, lost answers and answered attempts: there is an answer if and only if one attempt is answered; for a chunk it is positive, for START and END exactly when no earlier attempt was delivered, otherwise it is BAD_STATE with the step accepted |
| CanBus.LosslessPlanPasses | linux/hkc/src/hkc_client.cpp:145-182 | on a bus that loses nothing every step of a download passes |
| CanBus.LostAnswerFails | linux/hkc/src/hkc_client.cpp:154-159 | START or END with a delivered attempt whose answer is lost ends in BAD_STATE, also when a repeat is answered |
| HkcClient.Bus.Receive | linux/hkc/src/hkc_client.cpp:97-110 | one wait ends with the oldest answer, a time-out, a failure or a frame of another station |
| HkcClient.HkcClient.Transact | linux/hkc/src/hkc_client.cpp:85-118 | for any request and any test of its response: the bus and the reply are those of the exchange with retries + 1 attempts; no response only after exactly that many requests were sent, and with negative retries nothing is sent |
| HkcClient.HkcClient.BootRequest | linux/hkc/src/hkc_client.cpp:120-133 | an answer has the response identifier, the opcode with the response flag and, for DATA, the sequence number |
| HkcClient.HkcClient.RequestOk | linux/hkc/src/hkc_client.cpp:154-181 | the client goes on only after the target has accepted the step, and gives up only after retries + 1 requests; with a willing target a chunk passes if and only if one attempt is answered, START and END if and only if the first delivered one is |
| HkcClient.HkcClient.Flash | linux/hkc/src/hkc_client.cpp:145-182 | for every pattern of losses and timeouts a normal return means the whole image is in the region, verified and complete; a willing target refuses only a repeated START or END; for every plan of losses the download succeeds if and only if every step passes, and otherwise ends on the first that does not, with the result and the target's progress named |
| Mmu.NoOverlapMeansFault | firmware/rtos/bsp/mmu.c:101-114 | a megabyte the builder skips contains no listed address, also for a region whose end would wrap |
| Mmu.FirstRegionDecides | firmware/rtos/bsp/mmu.c:58-127 | where listed regions overlap the first one decides type and permission, and an address in none faults |
| Mmu.SectionDescReads | firmware/rtos/bsp/mmu.c:129-148 | a section descriptor gives back type, execute permission and base, and is never mistaken for a table |
| Mmu.PageDescReads | firmware/rtos/bsp/mmu.c:150-169 | the same for a page descriptor |
| Mmu.MappedIsReadWrite | firmware/rtos/bsp/mmu.c:129-169 | whatever is mapped can be read and written, and exactly normal memory carries the shareable bit |
| Mmu.WalkGivesRepresentative | firmware/rtos/bsp/mmu.c:73-99 | walking built tables gives the attributes of the start of the page or megabyte, mapped to itself |
| Mmu.AgreesEverywhereIff | firmware/rtos/bsp/mmu.c:58-208 | the tables agree with the region list in type, execute permission and place at every 32-bit address if and only if no page is split and at most eight megabytes are mixed |
| Mmu.NinthMegabyteIsWrong | firmware/rtos/bsp/mmu.c:193-197 | nine aligned regions in nine megabytes: the second page of the ninth is mapped although nothing is listed there |
| Mmu.AlignedIsPageGranular | firmware/rtos/bsp/mmu.c:58-69 | page-aligned regions never split a page |
| Mmu.MixedAreSplit | firmware/rtos/bsp/mmu.c:184-196 | the mixed megabytes are at most those with a region boundary inside |
| Mmu.BoardTablesAgree | firmware/rtos/bsp/mmu.c:39-52 | for the board's ownership map the tables are right at every address |
| MmuTables.TranslationTables.Build | firmware/rtos/bsp/mmu.c:171-208 | every megabyte has the entry the specification asks for, the second-level tables are handed out in order, and no megabyte disturbs another |
| MmuTables.TranslationTables.TypeOf | firmware/rtos/bsp/mmu.c:73-99 | the type read from the live tables is that of the walk, and that of the region list for every list they were built from that fits them |
| FrameHeader.DecodesIffEncoded | libs/modem/src/frame.c:46-64 | sixteen bits decode to a header if and only if they are its encoding, the fields fit and the MODCOD is known |
| FrameHeader.ReadHeader | libs/modem/src/frame.c:53-64 | the CRC loop and the field extraction give the specified decoding |
| FrameHeader.ResidueIsZero | libs/modem/src/frame.c:33-44 | the CRC-4 matches exactly when dividing all sixteen bits leaves zero |
| FrameHeader.BurstDetected | libs/modem/src/frame.c:33-64 | no error confined to four neighbouring header bits is accepted |
| FrameHeader.GeneratorIs | libs/modem/src/frame.c:33-44 | among the polynomials of degree four exactly x^4 + x + 1 leaves no remainder |
| FrameHeader.HeaderWord | libs/modem/src/frame.c:46-51 | as a number the header is the MODCOD from bit 13, the type from bit 11, the sequence number from bit 4 and the CRC below |
| FrameLayout.FrameFits | libs/modem/src/frame.c:66-87 | every known MODCOD has payload, and its frame fits the declared maximum lengths |
| FrameLayout.FrameLengths | libs/modem/src/frame.c:66-87 | the payload and frame lengths of all five MODCODs as numbers |
| FrameLayout.EfficiencyGrows | libs/modem/src/modcod.c:9-15 | a higher MODCOD carries more information bits per symbol |
| FrameLayout.MarkerIs | libs/modem/src/frame.c:19-31 | the sync marker bits spell 1ACFFC1D |
| FrameLayout.LayoutClosedForm | libs/modem/src/frame.c:164-177 | behind the header 512 payload symbols and 16 pilots alternate: symbol q is a payload symbol or the pilot (1, 0) by its place in 528 |
| FrameLayout.InterleavedPlaces | libs/modem/src/frame.c:164-177 | the interleaved payload has the announced length, and symbol i is where the closed form says |
| FrameLayout.Build | libs/modem/src/frame.c:147-179 | for mapped payload symbols: writes marker, header and payload with pilots, as many symbols as announced, or refuses and writes nothing |
| FrameReceiver.Receiver.Push | libs/modem/src/receiver.c:374-394 | after each symbol the machine has the outcome that all symbols since the marker determine, and goes back to hunting when that is final |
| FrameReceiver.Receiver.HeaderSymbol | libs/modem/src/receiver.c:316-346 | the soft sums are those of the four repetitions; after 64 symbols the header is decoded or counted as an error |
| FrameReceiver.Receiver.PayloadSymbol | libs/modem/src/receiver.c:348-372 | pilots are left out exactly where they are due and every other symbol is stored at its own index |
| FrameReceiver.FrameIsTaken | libs/modem/src/receiver.c:316-372 | with a readable header the machine takes exactly the announced number of symbols, no fewer, and delivers each payload symbol at its index, for any noise |
| FrameReceiver.BuiltFrameIsReceived | libs/modem/src/frame.c:147-179 | without noise the receiver hands back the header and the payload the builder was given |
| FrameReceiver.TakeFrame | libs/modem/src/receiver.c:374-394 | pushed symbol by symbol, the machine delivers or gives up exactly where the symbols since the marker say so |
| FrameBlock.RandomizeTwice | libs/common/src/ccsds_randomizer.c:41-66 | randomizing twice is the identity |
| FrameBlock.SequenceIsStates | libs/common/src/ccsds_randomizer.c:20-39 | each byte of the sequence is the register state it started from |
| FrameBlock.FirstStates | libs/common/src/ccsds_randomizer.c:20-39 | the sequence starts FF 48 0E C0 9A 0D 70 BC |
| SequencePeriods.RandomizerPeriod | libs/common/src/ccsds_randomizer.c:20-39 | from the seed the sequence repeats after 255 bytes |
| FrameBlock.RandomizedCarriesOn | libs/common/src/ccsds_randomizer.c:41-59 | randomizing in two pieces with one register is randomizing the whole |
| FrameBlock.Randomizer.Apply | libs/common/src/ccsds_randomizer.c:41-59 | the buffer is randomized in place from wherever the register stands, and the register is left behind the last byte |
| Pn9.Fill | libs/modem/src/prbs.c:7-21 | the buffer holds the sequence of the nine-bit register from all ones |
| Pn9.Recurrence | libs/modem/src/prbs.c:7-21 | every bit is the exclusive or of those nine and five places before |
| Pn9.BitsInOrder | libs/modem/src/prbs.c:7-21 | bit j of byte i is output 8i + j of the register, most significant bit first |
| Pn9.StartsWithOnes | libs/modem/src/prbs.c:7-21 | the sequence starts with nine ones |
| SequencePeriods.IdleSequencePeriod | libs/modem/src/prbs.c:7-21 | from all ones the sequence repeats after 511 bits |
| FrameBlock.BuildBlock | libs/modem/src/frame.c:108-136 | the coded bits are the codeword of the randomized block with its checksum, of the given information or the idle sequence, padded with zeros to whole symbols |
| FrameBlock.SentBits | libs/modem/src/frame.c:108-130 | what is sent for a block, bit by bit and without the encoder: the punctured rate 1/2 code of the information and its checksum, each byte with the randomizer's state added, then six zeros |
| Mapper.NeighboursDifferInOneBit | libs/modem/src/mapper.c:11-19 | the labels of neighbouring phases differ in exactly one bit |
| Mapper.LabelsAroundCircle | libs/modem/src/mapper.c:11-73 | the eight labels of 8PSK and the points they are sent as |
| Mapper.SignsAreBits | libs/modem/src/mapper.c:50-60 | in BPSK and QPSK the sign on each axis is its bit, and the amplitude does not depend on the bits |
| Mapper.MappedIsInjective | libs/modem/src/mapper.c:34-75 | the bits can be read back from the mapped symbols, in every modulation |
| Mapper.Map | libs/modem/src/mapper.c:34-75 | whole groups of bits are mapped in order; anything else is refused and writes nothing |
| FrameBuilder.BuildFrame | libs/modem/src/frame.c:89-180 | the array holds marker, header and mapped payload of the coded block with pilots, exactly as many symbols as announced, or nothing is written |
| FrameBuilder.FrameRoundTrip | libs/modem/src/frame.c:89-180 | without noise the receiver hands back header and payload of a built frame, and soft bits with the signs of the mapped bits lead back to the information with residue 0 |
| FrameBlock.BlockRoundTrip | libs/modem/src/receiver.c:226-239 | with sign-correct soft bits the block decoded is the one sent, with checksum residue 0 |
| FrameBlock.FinishBlock | libs/modem/src/receiver.c:226-239 | the block returned is the one whose randomized bits the decoder found, its verdict is the residue, and sign-correct input gives the information back |
| Crc16.NibblesAreByteStep | libs/common/src/crc16_ccitt.c:15-36 | two table look-ups are eight division steps |
| Crc16.Update | libs/common/src/crc16_ccitt.c:21-36 | the nibble-table loop computes the bit-at-a-time CRC |
| Crc16.CheckValue | libs/common/include/satlink/common/crc16_ccitt.h:6 | the digits 1 to 9 have the CRC 29B1 |
| Crc16.UpdateBitwise | host/cli/src/crc.rs:10-22 | the nested bit loop computes the same CRC |
| Crc16.Compose | libs/common/src/crc16_ccitt.c:21-36 | updating piece by piece is updating with the concatenation |
| Crc16.Residue | libs/common/src/crc16_ccitt.c:21-36 | appending the CRC most significant byte first leaves 0 |
| Crc16.OnlyCrcLeavesZero | libs/common/src/crc16_ccitt.c:21-36 | two bytes that leave 0 are the CRC |
| Crc16.AdjacentErrorDetected | libs/common/src/crc16_ccitt.c:15-36 | two messages that differ only in two adjacent bytes have different CRCs |
| Crc32.NibbleIsFourSteps | libs/common/src/crc32.c:10-30 | one table look-up is four division steps |
| Crc32.Update | libs/common/src/crc32.c:15-30 | the nibble-table loop computes the bit-at-a-time CRC |
| Crc32.CheckValue | libs/common/include/satlink/common/crc32.h:6 | the digits 1 to 9 have the CRC CBF43926 |
| Crc32.Compose | libs/common/src/crc32.c:15-30 | updating piece by piece is updating with the concatenation |
| PusPacket.TimeRoundTripIff | libs/pus/src/space_packet.cpp:126-139 | conversion to CUC time and back is the identity if and only if the time is in the 2^32 seconds from the mission epoch |
| PusPacket.FractionIsFloor | libs/pus/src/space_packet.cpp:126-134 | seconds count from the mission epoch, and the fraction is the largest number of 65536ths not above the milliseconds |
| PusPacket.CrcOkIff | libs/pus/src/space_packet.cpp:34-37 | a packet passes the error control if and only if it ends with the CRC of what is before |
| PusPacket.FinishedPassesIff | libs/pus/src/space_packet.cpp:39-98 | a finished packet passes the common checks if and only if its length fits the 16-bit field |
| PusPacket.CheckedIsFinished | libs/pus/src/space_packet.cpp:60-98 | what passes the checks with unsegmented flags is a finished packet, bit for bit |
| PusPacket.RejectionMeans | libs/pus/src/space_packet.cpp:60-98 | what each rejection says of the bytes, and of all checks before it |
| PusPacket.TcBytes | libs/pus/src/space_packet.cpp:177-186 | a telecommand byte by byte, with its CRC |
| PusPacket.TmBytes | libs/pus/src/space_packet.cpp:188-200 | a telemetry packet byte by byte, with its CRC |
| PusPacket.TcRoundTripIff | libs/pus/src/space_packet.cpp:177-221 | a telecommand decodes to itself if and only if every field and the length fit |
| PusPacket.TcDecodeIsInjective | libs/pus/src/space_packet.cpp:202-221 | an unsegmented packet that decodes is the encoding of what it decodes to |
| PusPacket.TmRoundTripIff | libs/pus/src/space_packet.cpp:188-243 | the round trip for telemetry, if and only if it fits |
| PusPacket.TmDecodeIsInjective | libs/pus/src/space_packet.cpp:223-243 | the same uniqueness for telemetry with zero time reference status |
| Acm.Run | libs/acm/src/acm.c:74-153 | in every run of decisions and new configurations the level stays in the configured range and the hold count below its limit |
| AcmLaws.LockLossFallsToLowest | libs/acm/src/acm.c:115-123 | without lock the level falls to the lowest at once, one change is counted unless it is there, and the rise starts over |
| AcmLaws.LevelIsSupported | libs/acm/src/acm.c:125-134 | under lock a decision ends above the lowest level only with threshold and margin met; the level falls exactly when they are not, and past no level that they allow |
| AcmLaws.RisesIff | libs/acm/src/acm.c:136-152 | a decision rises if and only if it is locked, below the highest level, with margin and hysteresis above the next threshold and the hold count complete; and then by one level |
| AcmLaws.RiseIsHeld | libs/acm/src/acm.c:136-152 | in any run of frames a rise ends a row of as many locked frames as the hold asks for, all on the level below and all good enough |
| AcmLaws.RisesAreSlow | libs/acm/src/acm.c:110-153 | n frames of any kind raise the level at most (count + n) / hold times |
| AcmLaws.ConfigureMovesToNearest | libs/acm/src/acm.c:74-95 | a new configuration moves the level to the nearest one in range and restarts the hold count |
| Acm.HysteresisHolds | libs/acm/src/acm.c:110-153 | between a rise to a level and a later fall from it under lock, Es/N0 dropped by more than the hysteresis |
| Acm.SteadyClimb | libs/acm/src/acm.c:136-152 | under constant Es/N0 the level rises once per hold period from where it is to the summit and stays there |
| Acm.SteadyFall | libs/acm/src/acm.c:125-134 | without enough Es/N0 the level falls once, to the target, and stays there |
| Acm.SteadyRests | libs/acm/src/acm.c:97-153 | after (max - min) * hold decisions the level is at rest, after at most max - min changes |
| AcmControl.AcmController.FindTarget | libs/acm/src/acm.c:97-108 | the loop finds the highest level in range with enough Es/N0, or the lowest one |
| AcmControl.AcmController.Update | libs/acm/src/acm.c:110-153 | the controller updated in place follows the specified decision |
| AcmControl.AcmController.Configure | libs/acm/src/acm.c:74-95 | a valid configuration is taken and the level clamped into it, an invalid one changes nothing |
| AxiDma.CompleteKeepsContents | firmware/rtos/dma/src/axi_dma.c:108-121 | a completion puts the transfer into the next free place and disturbs no transfer still to be taken |
| AxiDma.RequeueKeepsContents | firmware/rtos/dma/src/axi_dma.c:123-136 | handing a buffer back frees its place and disturbs no other |
| AxiDma.Ring.EngineCompletes | firmware/rtos/dma/src/axi_dma.c:53-95 | the engine never touches the buffer the application may hold, and stops exactly when every buffer is completed and none handed back |
| AxiDma.Ring.PeekDone | firmware/rtos/dma/src/axi_dma.c:108-121 | returns a buffer exactly when one is completed and not handed back: the oldest, with its contents and length |
| AxiDma.Ring.Requeue | firmware/rtos/dma/src/axi_dma.c:123-136 | hands the oldest completed buffer back with a cleared status and the control word of a whole buffer, counts its error, leaves the other descriptors alone and arms the engine up to it |
| AxiDma.RunSchedule | firmware/rtos/dma/src/axi_dma.c:53-136 | in every interleaving of completions, peeks and releases the application takes the completed transfers in order, once each, and finds a buffer at release as it was when it got it |

## Left out

- Checks for null arguments and the status they return: the model's arguments always exist.
- Floating-point signal processing (AGC, timing, PLL, demapper, Es/N0): derotated samples and soft bits are given values, and the sync marker detector's verdict is an input. Symbol amplitudes are the decimal constants of the source as real numbers.
- Bit operations on words used as fields or descriptors are written as arithmetic on the fields (a shift as a quotient, an or of disjoint fields as a sum, a mask with size - 1 as a remainder).
- The decoder's decision memory is a fresh table of booleans instead of a static array of 64-bit words.
- Statistics and change counters that count up in 32 bits are unbounded numbers.
- IpcRing.DataSizeFor: assumes a region below 2 GiB + 128 bytes, because the loop does not end above; `IpcRing.DoublingEndsCondition` states exactly that.
- IpcRing.Ring.Attach: the same assumption, because it sizes the area with that loop.
- IpcRing.Ring.Init: the same assumption.
- IpcRing.Ring.Read: the caller's buffer is assumed not to be the ring's own memory.
- RingConcurrent.DeliveredIsPrefix: steps are sequentially consistent; the barriers of the source appear only as the order of the steps, and weaker memory orders are not modelled.
- TmLink.LinkLossBehaviour: assumes accepted packets are well formed (version 0, length field equal to the size, 7 to 4096 bytes). What is delivered after a gap that is a multiple of 256 depends on the contents and is not described.
- Virtual channel time-outs, the packet handler's own work and the `Queued` getter.
- CanBootSession.Session.Init: assumes a region of at most 2^32 - 7 bytes, so that an offset and one frame stay within 32 bits.
- CanBoot.JumpStartsVerifiedImage: the mailbox, the reset cause, LEDs and the wait for the transmit buffer are not modelled, and only the session writes the region.
- FlashProtocol.HappenKeepsInv: a download starts on an empty bus, the bus keeps the order of frames, and the target is not reset while it runs; a restart of the bootloader during a download is not modelled.
- HkcClient.HkcClient.Flash: the exact outcome is stated for attempts that lose the request, lose the answer or are answered in time, one at a time; late answers and frames of other stations are covered by the safety part only. Time is modelled by how each wait ends, progress callbacks and exception texts are left out.
- The client's Ping, Boot, Abort and housekeeping commands, the fixed-layout message codecs, and the CAN controller and its bit timing.
- Mmu.BoardTablesAgree: the board's region addresses are those of the generated address map at this version.
- Enabling the MMU: system registers, barriers, TLB and domains.
- FrameReceiver.FrameIsTaken: the header's repetitions are summed as real numbers.
- Bit error counting and lock statistics of the receiver.
- PusPacket.TcDecodeIsInjective: for packets with unsegmented sequence flags, which the decoder does not check.
- PusPacket.TmDecodeIsInjective: also for a zero time reference status, which the decoder does not check.
- Acm.SteadyRests: Es/N0 and thresholds are real numbers, so rounding of `float` sums is not modelled; the change callback is left out.
- AxiDma.Ring.EngineCompletes: the engine is an assumed environment that completes descriptors in order and stops behind the tail; register access, interrupt acknowledgement, idle detection and 32-bit descriptor addresses are left out.
- A/B boot control, the modem application queue, the SCPI parser, the register-map generator and report decoding.
