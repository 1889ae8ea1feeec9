# RustEMS communication stack: a verified model

This project models how a PC talks to a RustEMS engine controller and proves what that
conversation guarantees. It follows the program: one Dafny module per source file or concern.

**The RDP wire.** `Cobs` (byte stuffing), `Crc16` (checksum), `Frame` (build, parse, fragment),
`Defrag` (reassembly), `Receiver` (the host's splitter and message queue), `Delivery` (sender to
receiver), `Loss` (frames that do not arrive). `Legacy` holds the CRC-32 framing of the older
TunerStudio protocol, `LegacyErrors` what its checksum detects, `Demux` the firmware loop that serves
both protocols on one serial line, `DualStack` the proof that it keeps them apart, and `LineRecovery` what
other bytes on that line cost.

**Telemetry.** `Telemetry` (one-pass packing on the device, two-pass unpacking on the host, when they
agree), `Streams` (subscriptions and the frame writer), `HostTelemetry` (the host's reader), `Schedule`
(rates and draining over whole runs), `Service` (which stream a poll serves, and which it starves), `Session`
(requests and pushes on one connection, telemetry across the whole stack).

**The server state.** `Floats` (binary32 values as bits), `Params` (parameters, tables, axes),
`ConfigChecksum` (FNV-1a over the configuration), `ConfigServer` (requests), `ConfigRuns` (properties of
all request sequences), `ConfigRequests` (the same by the numbers on the wire: what is read back, reset and saved), `Faults` and `FaultTraces` (fault records and push events), `Control`
(overrides that expire), `Conversation` (requests and answers through both lines, both reassemblies and the
server).

**The legacy client.** `Tune` (the device's request handler), `Packet` (the host's framing), `EcuClient`
(the chunked read and write loops against the device).

Objects that the source updates in place are classes whose methods are proved against functions on
values; the lemmas are about those functions, so they hold of the methods. Loops of the source are loops
here. Numbers of the wire, sizes, limits and start values are written out in the lemmas that fix these functions, so
that a claim can be read without the definitions behind it.

## Where code and documentation part

* Unstuffing is documented to reject a zero inside stuffed data. It does so exactly if a length code is zero and the
  blocks in front of it fit the output (`Cobs.UnexpectedZeroIffZeroCode`), so zeros are treated as documented exactly
  if there is none or one of them is a length code (`Cobs.ZerosRejectedAsDocumentedIff`). A block holding a zero is
  accepted (`Cobs.ZeroInsideBlockIsCopied`). The splitter never hands over a zero (`Cobs.ZeroFreeNeverUnexpected`).
* `encode_message` does not look at the fragment bits of the flags it is given. A message that fits the receiver
  comes out as sent exactly if a message of one frame is not marked "fragment" without "last", and a longer one is
  not marked "last" (`Delivery.DeliveredIffFlagsAllow`, for example `Delivery.FragmentFlagHoldsMessageBack`); every
  caller passes no flags.
* Reassembly cannot notice a missing fragment. Of a message met while idle, any frames may be lost: it is delivered
  exactly if none is, nothing is delivered if the last is, and otherwise a message is that was never sent
  (`Loss.DeliveredIffNothingLost`, for example `Loss.LostFirstFragment`). The next message, received in full, is
  delivered too exactly if it fits one frame or the earlier message left nothing unfinished
  (`Loss.NextMessageDeliveredIff`, for example `Loss.LostLastFragmentSpoilsNextMessage`), and in general exactly if
  it fits one frame, or fits the receiver and meets no unfinished message, or one of its own number without bytes
  (`Delivery.MessageEndsIdle`).
* Stuffing is documented to be self-synchronising. The host skips a stray delimiter, but on the shared line the
  firmware reads it as the length of a legacy frame. In front of a frame without flags it is never waited on, and
  everything buffered is thrown away unless four bytes happen to be a checksum (`LineRecovery.StrayZeroDropsIff`, for
  example `LineRecovery.StrayZeroDropsFirstRequest`). Other leading bytes cost at most the frame they run into
  (`LineRecovery.NoiseCostsOneFrame`), and then one complete message makes everything behind it arrive
  (`LineRecovery.RequestsServedAfterNoise`).
* A frame is documented to carry at most 512 bytes. The firmware unstuffs into 600 and does not check: it serves a
  frame of up to 592 (`DualStack.FrameServedIffUnstuffed`).
* The host sends messages of up to 4096 bytes; the firmware puts together 1024. A request reaches it exactly if it
  is no longer than that (`Conversation.RequestReachesDevice`).
* Flags are documented to travel in trailing bytes. The eighth flag is written at once, in front of later
  numbers. A layout comes through exactly if fewer than eight flags precede its last number
  (`Telemetry.RoundTripIffFewFlagsFirst`), which every layout without repeated channels satisfies and one that the
  device accepts does not (`HostTelemetry.AcceptedLayoutMisread`).
* The time a stream is next due wraps at 2^32 ms but is compared without wrapping. Draining stops exactly if no due
  stream's next time wraps (`Schedule.DrainStopsIffClockHolds`), and over true time a stream is first found due by the
  first poll at or after its time exactly if no poll falls in front of a wrap before that time and that poll does not
  follow a wrap with the clock still below it (`Schedule.FoundDueOnTimeIff`, for example
  `Schedule.NotFoundDueAfterWrap`). Frames are an interval apart unless the due time lies behind a wrap
  (`Service.StreamPacedUnlessWrapped`).
* A subscription is answered with the rate the stream will have, but a poll serves the first due slot alone, and the
  firmware polls once in 10 ms. A poll sends the frame of a slot exactly if it is due, no lower slot is, and there is
  room (`Service.SentIff`). A due stream starves over a run exactly if every poll finds a lower slot due
  (`Service.StarvedIffLowerAlwaysDue`), with one stream below it exactly if no two polls are closer than that
  stream's interval (`Service.StarvedByOneIffSlowPolls`); so of two streams at 100 Hz the firmware sends one
  (`Service.SecondStreamStarves`). More polls than the lower streams can have frames are enough
  (`Service.SentIfPollsOutnumberLower`). `Service.SentOnTimeIff` joins lower slots, room and the wrap.
* Setting a parameter is documented to clamp to the catalogue range. Without the server's check a value ends in range
  exactly if it is a number, for the five clamped parameters; displacement and tooth counts are only raised to one
  (`Params.UncheckedSetEndsInRangeIff`, for example `Params.UncheckedDisplacementStays`).
* Displacement and trigger wheel must not change while the engine runs, but discarding does not check for it
  (`ConfigRuns.GeometryChangesIffDiscarded`, for example `ConfigRuns.DiscardChangesRunningEngine`).
* Overrides are documented to expire after their timeout. One does, and stays expired, exactly if the first poll after
  its end comes within half a turn of the clock, modulo the clock (`Control.EndsOnTimeIffPolledInTime`, for example
  `Control.LatePollFindsOverrideActive`).
* The serial line is documented to carry legacy requests below 256 bytes. The client does not enforce it: a write
  is understood exactly if it carries at most 250 bytes (`EcuClient.WriteRoutedIffShort`, for example
  `EcuClient.WriteOf251BytesNotUnderstood`).
* The page is read and written in chunks whose offsets are cut to 16 bits. Reading gives the page, whatever it holds,
  exactly if it is long enough, a chunk fits a packet and every chunk begins below 2^16
  (`EcuClient.ReadsFaithfullyIff`). With a chunk size of zero neither loop ends, unless a write begins past the page
  (`EcuClient.ZeroFactorRepeats`).

## Model

| member | source | states |
|---|---|---|
| Cobs.Encode | device-api/src/cobs.rs:33-63 | fails exactly below the documented worst-case room; otherwise writes the stuffed form, and nothing in front of it |
| Cobs.Decode | device-api/src/cobs.rs:67-95 | output, length and error are those of the block-by-block meaning of stuffed data |
| Cobs.EncodedBlockByBlock | device-api/src/cobs.rs:33-63 | the stuffed bytes in literals: up to 253 bytes behind their number and one, 254 behind 255, and which zero is left out |
| Cobs.DecodedBlockByBlock | device-api/src/cobs.rs:67-95 | the block read from a length code, where a zero follows it, and which of the three errors stops it |
| Cobs.EncodedLength | device-api/src/cobs.rs:22-27 | stuffing adds one byte and one more per completed run of 254, never more than the documented bound |
| Cobs.EncodedZeroFree | device-api/src/cobs.rs:29-63 | stuffed data holds no zero |
| Cobs.DecodeInvertsEncode | device-api/src/cobs.rs:29-95 | unstuffing gives back every input that fits the output, and reports any other as too large |
| Cobs.UnexpectedZeroIffZeroCode | device-api/src/cobs.rs:67-95 | for every input and output room, the unexpected-zero error is reported if and only if a length code reached from the front is zero and the blocks in front of it fit |
| Cobs.ZerosRejectedAsDocumentedIff | device-api/src/cobs.rs:67-95 | with room for the input, "an error exactly for data with a zero" holds if and only if there is no zero or a length code is zero |
| Cobs.ZeroInsideBlockIsCopied | device-api/src/cobs.rs:80-87 | a zero inside a block is data: every block decodes to its bytes, for instance the block of one zero |
| Cobs.ZeroFreeNeverUnexpected | device-api/src/cobs.rs:73-75 | data without zeros never meets the unexpected-zero error |
| Crc16.Crc16Ccitt | device-api/src/crc16.rs:13-28 | the bitwise loops compute the register after all bytes, from the start value that `Crc16.ChecksumStartsWithOnes` and `Crc16.CheckValue` fix |
| Crc16.ChecksumIsRemainder | device-api/src/crc16.rs:13-28 | the register is the remainder of the message polynomial, with the start value folded in, divided by 0x11021 |
| Crc16.ChecksumStartsWithOnes | device-api/src/crc16.rs:4-28 | for every input the checksum is that of the bits fed, highest first, into a division that starts with sixteen ones |
| Crc16.LeadingBytesMissedIff | device-api/src/crc16.rs:13-28 | bytes put in front of any data leave its checksum as it is if and only if their own checksum is 0xFFFF |
| Crc16.LeadingZeroNoticed | device-api/src/crc16.rs:13-28 | a zero byte put in front of any data always changes its checksum |
| Crc16.CheckValue | device-api/src/crc16.rs:4-7 | the checksum of "123456789" is 0x29B1, as documented |
| Crc16.BurstChangesChecksum | device-api/src/crc16.rs:13-28 | two messages that differ only within 16 consecutive bits have different checksums |
| Crc16.CoveredAndChecksumAreEven | device-api/src/crc16.rs:9-28 | data and checksum together have an even number of one bits |
| Frame.EncodeFrameRaw | device-api/src/frame.rs:137-164 | fails exactly for an oversized payload or too little room; otherwise writes header, payload and checksum |
| Frame.EncodeFrame | device-api/src/frame.rs:122-134 | writes the stuffed frame and its delimiter, with the source's order of errors |
| Frame.DecodeFrame | device-api/src/frame.rs:204-210 | unstuffing followed by parsing |
| Frame.FrameFailsIff | device-api/src/frame.rs:122-164 | which of the three errors is reported for every frame and room, and that all others are written |
| Frame.RawFrameErrors | device-api/src/frame.rs:214-247 | for any bytes the first failing check decides: eight bytes, version, announced length, checksum; what passes has its flags and payload at their places |
| Frame.ExampleMessage | device-api/src/frame.rs:122-199 | one message on the wire byte for byte |
| Frame.DecodeExactlyInvertsBuild | device-api/src/frame.rs:137-247 | a frame is parsed from some bytes if and only if it has the supported version and those bytes are what building it gives |
| Frame.DecodedIffRoom | device-api/src/frame.rs:204-247 | a built frame of any size is decoded if and only if its eight bytes and payload fit the buffer it is unstuffed into |
| Frame.BurstRejected | device-api/src/frame.rs:214-247 | any change within 16 consecutive covered bits of an accepted frame is rejected |
| Frame.AcceptedFrameIsEven | device-api/src/frame.rs:231-236 | every accepted frame has an even number of one bits |
| Frame.OddFlipsRejected | device-api/src/frame.rs:231-236 | an odd number of flipped bits anywhere in an accepted frame is rejected |
| Frame.FrameSurvives | device-api/src/frame.rs:122-211 | a built and stuffed frame decodes to itself, holds no zero and fits 523 bytes |
| Frame.EncodeMessage | device-api/src/frame.rs:172-199 | writes exactly the delimited frames of the message, or the error of the first frame that does not fit |
| Frame.FragmentsAre | device-api/src/frame.rs:172-199 | every frame of a message sent without flags in literals: 512 bytes each and what is left, fragment flag on all, last flag on the last |
| Frame.MessageFailsIff | device-api/src/frame.rs:172-199 | a message is written if and only if each frame fits behind those in front of it; otherwise the error is that of the first that does not |
| Frame.SendBufferSuffices | client/src/rdp.rs:352-355 | the buffer the sender allocates is large enough for every payload |
| Defrag.Defragmenter.Feed | device-api/src/defrag.rs:39-95 | result and next state of one fed frame in every case |
| Defrag.BufferHoldsBlock | device-api/src/defrag.rs:39-95 | over any run the buffer is exactly the payloads of the open block of fragments, within capacity |
| Defrag.DeliveredFromContiguousBlock | device-api/src/defrag.rs:39-95 | over any run a delivered message is one unfragmented payload or a contiguous block of fed fragments of one number, only the final one marked last |
| Receiver.RdpReceiver.PopMessage | client/src/rdp.rs:363-383 | returns the first message of the one-shot parse of the buffered bytes and leaves a buffer and state that parse to the rest |
| Receiver.RdpReceiver.RecvMessage | client/src/rdp.rs:386-398 | returns the first message of everything the stream delivers until it closes or a read fails, or reports which of the two, with nothing lost |
| Receiver.FirstStopDecides | client/src/rdp.rs:386-398 | the first failing or empty read of a stream decides what it delivers, with which error it ends and what is left |
| Receiver.PiecesMakeNoDifference | client/src/rdp.rs:361-398 | messages, rest and final state depend only on the concatenation of the reads |
| Receiver.RestIsZeroFree | client/src/rdp.rs:363-366 | what stays in the receive buffer holds no delimiter |
| Delivery.RdpSender.SendPayload | client/src/rdp.rs:346-359 | puts the frames of the payload on the wire, payload k of the session (from 0) under the number 1 + k modulo 65535 |
| Delivery.NumbersDiffer | client/src/rdp.rs:346-359 | over a whole run no payload goes out under 0, and two have the same number if and only if they are a multiple of 65535 apart |
| Delivery.FramesArrive | client/src/rdp.rs:363-383 | splitting and decoding hands reassembly exactly the frames that were sent, whatever follows |
| Delivery.MessagesArrive | client/src/rdp.rs:346-383 | every list of messages up to 4096 bytes arrives unchanged and in order, with an empty buffer and an idle reassembly at the end |
| Delivery.MessagesArriveInPieces | client/src/rdp.rs:361-398 | the same through every cutting of the stream into reads |
| Delivery.DeliveredIffFlagsAllow | device-api/src/frame.rs:172-199 | a message that fits comes out as sent if and only if, in one frame, "fragment" is not set without "last", or, in several, "last" is not set by the caller |
| Delivery.FragmentFlagHoldsMessageBack | device-api/src/frame.rs:172-199 | one byte sent with "fragment" and without "last" is not delivered but held back as the beginning of a message |
| Delivery.MessageEndsIdle | device-api/src/defrag.rs:47-94 | from any state a complete message leaves reassembly idle, and it is delivered as sent if and only if it fits one frame, or fits the receiver and meets no unfinished message, or one of its own number without bytes |
| Delivery.ResynchronisesAfterOneMessage | client/src/rdp.rs:363-383 | from any receiver state, after any bytes up to a delimiter and one more message, everything sent later arrives in order; that message itself under the same exact condition |
| Loss.KeptFramesDeliver | device-api/src/defrag.rs:47-94 | whatever frames of a message are lost, an idle reassembly delivers nothing if the last is, and otherwise exactly the bytes of the kept frames |
| Loss.DeliveredIffNothingLost | device-api/src/defrag.rs:47-94 | the message is delivered if and only if no frame is lost; one that was never sent is if and only if some frame is lost but not the last |
| Loss.NextMessageDeliveredIff | device-api/src/defrag.rs:55-94 | after such losses the next complete message is delivered if and only if it fits one frame, or the earlier one was not fragmented, kept its last frame or lost them all |
| Loss.LostFirstFragment | device-api/src/defrag.rs:74-94 | a lost first fragment turns 513 bytes into a message of one |
| Loss.LostLastFragmentSpoilsNextMessage | device-api/src/defrag.rs:56-61 | after a lost last fragment a message received in full comes out without its first 512 bytes |
| Legacy.ComputeCrc32 | engine-core/src/comms/mod.rs:57-67 | the masked bitwise loop computes the reflected CRC-32 register |
| Legacy.CheckValue | engine-core/src/comms/mod.rs:57-67 | the checksum of "123456789" is 0xCBF43926, the check value of CRC-32 |
| Legacy.ExampleFrame | engine-core/src/comms/mod.rs:109-120 | the frame of the signature request byte for byte |
| Legacy.EncodeLegacy | engine-core/src/comms/mod.rs:109-120 | fails exactly for too little room or an oversized payload; otherwise writes length, payload and checksum |
| Legacy.DecodeLegacyFrame | engine-core/src/comms/mod.rs:84-104 | a complete frame in front of any bytes is taken off exactly |
| Legacy.DecodeLegacyPrefix | engine-core/src/comms/mod.rs:85-92 | every proper prefix of a frame is reported incomplete |
| LegacyErrors.BurstChangesCrc32 | engine-core/src/comms/mod.rs:57-67 | payloads that differ only within 32 consecutive bits, in the order the register takes them, have different checksums |
| LegacyErrors.LegacyBurstRejected | engine-core/src/comms/mod.rs:84-104 | a legacy frame whose payload was changed within 32 consecutive bits is refused |
| Demux.CommsTask.Drop | stm32/src/main.rs:399-400 | moves the unread bytes to the front of the buffer |
| Demux.CommsTask.HandleRdp | stm32/src/main.rs:363-397 | decodes a chunk, feeds it and resets reassembly on an error |
| Demux.CommsTask.ProcessFrame | stm32/src/main.rs:349-457 | one turn of the loop: what is taken off, to which protocol it goes, or what stays |
| Demux.CommsTask.Receive | stm32/src/main.rs:309-462 | what was read is appended and everything complete is served in order, a full buffer without a frame is dropped, and a failing read empties the buffer |
| Demux.FullBufferDropped | stm32/src/main.rs:354-462 | a buffer of 1024 bytes without a delimiter is thrown away, a shorter one kept |
| DualStack.LegacyRoutedIffShort | stm32/src/main.rs:277-283 | a legacy frame reaches the legacy handler if and only if its payload is below 256 bytes |
| DualStack.FrameServedIffUnstuffed | stm32/src/main.rs:354-397 | a frame of its own is served if and only if its payload has at most 592 bytes, though none is built with more than 512; a larger one is passed over |
| DualStack.PacketTaken | stm32/src/main.rs:354-457 | a frame of either protocol in front of any bytes is taken off exactly and handed to its own handler |
| DualStack.ReadsServeTraffic | stm32/src/main.rs:309-462 | any mixture of frames, and of other bytes up to a delimiter, cut into any reads, is split at its boundaries and served in order; nothing is left, and none of the branches that empty the buffer (overflow in or after the loop, wrong checksum) is taken in any turn |
| DualStack.MixedRequestsServed | stm32/src/main.rs:309-462 | every list of RDP messages up to 1024 bytes and legacy requests below 256 bytes is served exactly, in order, without a byte being thrown away |
| LineRecovery.NoiseCostsOneFrame | stm32/src/main.rs:354-399 | bytes other than zero in front of an RDP frame join it as one chunk; every packet behind is served exactly, in any cutting, and nothing is thrown away |
| LineRecovery.RequestsServedAfterNoise | stm32/src/main.rs:354-397 | in any state, after a damaged chunk and whatever frames are left of its message, one complete message makes reassembly idle and every request behind it is served in order; that message itself is served if and only if the state it meets takes it whole |
| LineRecovery.StrayZero | stm32/src/main.rs:419-457 | a zero in front of other bytes makes the next one a length: the task waits for that many bytes and a checksum, and then takes them as a legacy request or throws the buffer away |
| LineRecovery.StrayZeroDropsIff | stm32/src/main.rs:419-457 | in front of a complete frame without flags the zero throws the whole buffer away, unless four bytes of the frame are the checksum of two others |
| LineRecovery.StrayZeroDropsFirstRequest | stm32/src/main.rs:452-456 | in front of the first request of a session it always does, whatever the payload and what follows |
| LineRecovery.ServedAfterDrop | stm32/src/main.rs:452-462 | a read that ends with everything thrown away costs what came in it; packets that begin with the next read are all served |
| LineRecovery.ServedAfterCutFrame | stm32/src/main.rs:354-462 | emptied inside the stuffed bytes of an RDP frame, the task loses that frame alone: every packet behind it is served exactly, in any cutting |
| Telemetry.PackedDataLen | engine-core/src/comms/telemetry.rs:482-494 | two bytes a number and one byte for every eight flags begun |
| Telemetry.PackedLength | engine-core/src/comms/telemetry.rs:434-475 | the packed data has exactly the announced length |
| Telemetry.ShownBySample | engine-core/src/comms/telemetry.rs:446-467 | for every catalogued channel and reading the value the device samples is the only one that shows the reading: its whole part towards zero between 0 and 65535, or -32768 and 32767 for channels 2, 3, 9 and 12, the bound beyond, 0 for what is not a number, 0 or 1 for a flag |
| Telemetry.ExampleData | engine-core/src/comms/telemetry.rs:434-475 | five samples packed byte for byte |
| Telemetry.NumbersThenFlags | engine-core/src/comms/telemetry.rs:434-475 | with fewer than eight flags in front of the last number, the one-pass packing is all numbers followed by all flags |
| Telemetry.HostRecoversSamples | client/src/rdp.rs:455-508 | then the host reads every number and flag at its own place |
| Telemetry.HostMisreadsTelltale | engine-core/src/comms/telemetry.rs:462-467 | with eight or more, zero numbers and set flags are misread |
| Telemetry.RoundTripIffFewFlagsFirst | engine-core/src/comms/telemetry.rs:417-478 | a layout comes through for all readings if and only if fewer than eight flags precede its last number |
| Telemetry.LayoutsWithoutRepetitionRoundTrip | engine-core/src/comms/telemetry.rs:51-251 | every layout without repeated channels comes through |
| Streams.TelemetryStreams.Subscribe | engine-core/src/comms/telemetry.rs:351-383 | errors in the source's order; otherwise the first free slot, the clamped rate and an interval of 10 to 1000 ms |
| Streams.SubscribedStreamStarts | engine-core/src/comms/telemetry.rs:351-383 | for every request: which error, in which order, or the first free of four slots holds a stream due at once, numbered from 0, with the rate of 1 to 100 Hz in the answer and the whole milliseconds of it |
| Streams.TelemetryStreams.Unsubscribe | engine-core/src/comms/telemetry.rs:386-397 | frees exactly the named slot if it is in use |
| Streams.TelemetryStreams.EncodeDueFrame | engine-core/src/comms/telemetry.rs:417-478 | serves the first due slot, moves its time even without room, and writes header and packed data of the announced length within bounds; what the values mean is `Telemetry.ShownBySample` |
| Streams.PollMovesFirstDue | engine-core/src/comms/telemetry.rs:417-441 | a poll moves the first due stream on by its interval, counts its number up if and only if the frame fits, and leaves the other slots alone |
| Streams.PollFindsNothing | engine-core/src/comms/telemetry.rs:423-430 | a poll that finds no stream due changes nothing |
| Streams.ExampleBody | engine-core/src/comms/telemetry.rs:434-478 | one body byte for byte |
| HostTelemetry.TelemetryClient.QueueTelemetry | client/src/rdp.rs:455-508 | queues a frame exactly if the body is long enough, the stream known and every channel readable; with the values at their layout places |
| HostTelemetry.Unpack | client/src/rdp.rs:466-501 | the two loops compute the two-pass reading, and nothing for unreadable channels or short data |
| HostTelemetry.QueuedIff | client/src/rdp.rs:455-508 | a body is queued if and only if it has seven bytes, a known stream, readable channels and enough data |
| HostTelemetry.FramesArriveIffFewFlagsFirst | client/src/rdp.rs:455-508 | whatever is read of its channels, the host queues every frame the device writes for a stream with stream, number, time and values that show those readings, if and only if fewer than eight flags precede the last number |
| HostTelemetry.AcceptedLayoutMisread | engine-core/src/comms/telemetry.rs:351-383 | a layout of eight times one flag and engine speed is subscribed and does not come through |
| Schedule.StreamIsPaced | engine-core/src/comms/telemetry.rs:417-441 | over any run of polls before the clock wraps, whatever room they have, frames of a stream are at least its interval apart and numbered without a gap |
| Schedule.DueAgainAtOnceIffWraps | engine-core/src/comms/telemetry.rs:425-428 | a stream just sent is due again at the same time if and only if its next time wraps |
| Schedule.Drain | sim/src/serve.rs:145-150 | with room for a frame the drain loop ends, having sent each due stream once in slot order |
| Schedule.DrainStopsIffClockHolds | engine-core/src/comms/telemetry.rs:425-428 | draining stops if and only if no due stream's next time wraps |
| Schedule.DueByTrueTime | engine-core/src/comms/telemetry.rs:425-428 | for a stream sent at a true time, the device's comparison at another is the one between the remainders of that time and the end of the interval |
| Schedule.DueRightlyIff | engine-core/src/comms/telemetry.rs:425-428 | over true time, "due" is right at a moment if and only if it lies in the turn of the clock of the due time, or in a later one with the clock past that time again |
| Schedule.FoundDueOnTimeIff | engine-core/src/comms/telemetry.rs:425-428 | over any series of polls a stream is first found due by the first poll at or after its time if and only if no poll before lies in front of a wrap and that poll sees the clock at or past that time |
| Schedule.NotFoundDueAfterWrap | engine-core/src/comms/telemetry.rs:425-427 | due just before the wrap and polled on both sides of it, a stream is not found due |
| Service.SentIff | engine-core/src/comms/telemetry.rs:417-478 | a poll sends the frame of a slot if and only if it is due, no lower slot is due, and the frame fits |
| Service.NeverSentIff | engine-core/src/comms/telemetry.rs:417-478 | a run has no frame of a slot if and only if no poll of it sends one, each poll seeing the schedule the earlier ones left |
| Service.StarvedIffLowerAlwaysDue | engine-core/src/comms/telemetry.rs:423-433 | over any ordered run with room, a stream that is due at its start is never sent if and only if every poll finds a lower slot due |
| Service.StarvedByOneIffSlowPolls | engine-core/src/comms/telemetry.rs:423-433 | with one stream in a lower slot and both due, the higher one is never sent if and only if every two consecutive polls are at least the interval of the lower one apart |
| Service.SecondStreamStarves | stm32/src/main.rs:309-333 | with two streams at 100 Hz and a poll every 10 ms, as the firmware polls, the second is never sent |
| Service.SentIfPollsOutnumberLower | engine-core/src/comms/telemetry.rs:417-478 | a due stream is sent if the polls of a run outnumber the frames that the lower streams can have in its time |
| Service.SentOnTimeIff | engine-core/src/comms/telemetry.rs:417-478 | over true time, the first poll that comes to a stream is the first at or after its time if and only if each earlier one lies in the turn of the clock of that time or finds a lower slot due, and that one sees the clock at or past it and no lower slot due; it sends the frame if and only if there is room |
| Service.LowerSlotsAlone | engine-core/src/comms/telemetry.rs:423-433 | whether lower slots are due at a poll depends on the lower slots and the polls alone |
| Service.StreamPacedUnlessWrapped | engine-core/src/comms/telemetry.rs:417-441 | over any run in true time, whatever room and wraps, frames of a stream are numbered without a gap and at least its interval apart unless the due time lies behind a wrap |
| Service.SkippedFrameWaits | engine-core/src/comms/telemetry.rs:425-433 | a frame skipped for want of room is not sent by any poll before the interval has passed again |
| Service.FreshStreamSentAtOnce | engine-core/src/comms/telemetry.rs:351-441 | a stream just subscribed is sent under number 0 by the first poll with room if and only if no lower slot is due |
| Session.HeaderRoundTrip | device-api/src/message.rs:229-248 | kind, operation and body of a message are read back as written |
| Session.HeaderBytes | device-api/src/message.rs:229-248 | the three bytes in literals: kinds 0 to 3, operation with its low byte first |
| Session.FirstAnswerDecides | client/src/rdp.rs:410-427 | the first answer with the number of the request decides: its body, or "unexpected operation" if it is for another; without one the outcome is the error of the stream |
| Session.OnlyTelemetryQueued | client/src/rdp.rs:401-427 | a message adds to the telemetry queue what its body gives if its first byte is 3, and nothing otherwise |
| Session.RdpSession.RoundTrip | client/src/rdp.rs:401-427 | a request goes out under the number of its place in the session and ends with the first answer of that number, or the error that ends the stream; telemetry in front of it is queued in order, answers to other requests are skipped, later messages stay |
| Session.DrainedTelemetryArrives | sim/src/serve.rs:144-168 | from device readings to host queue through every cutting of the stream: one frame for each stream due by then, in slot order, with its number and time and values that show what was read |
| Floats.FloatOfExact | engine-core/src/params.rs:241-242 | integers below 2^24 become floats and come back exactly |
| Floats.KnownValues | engine-core/src/params.rs:258-299 | 1.0, 0.5, -10.0, the infinities, a value that is not a number and negative zero as bits |
| Floats.TiesToEven | engine-core/src/params.rs:241-242 | integers halfway between two floats go to the even one |
| Params.SetParamStoresAccepted | engine-core/src/params.rs:262-299 | a value in range is held (tooth counts truncated), stays in range, and every other parameter, table and axis is as before |
| Params.UncheckedSetEndsInRangeIff | engine-core/src/params.rs:258-299 | a value set without the server's check ends in the catalogue range if and only if: it is a number, for clamped parameters; it is not above the maximum, for displacement; it truncates into the range (at most four for missing teeth), for tooth counts |
| Params.UncheckedSetHoldsNearest | engine-core/src/params.rs:258-299 | without the check a clamped parameter holds the nearest value in its range, written out here, and displacement at least 1; what is not a number stays, or is 1 for displacement |
| Params.UncheckedDisplacementStays | engine-core/src/params.rs:258-299 | a displacement of 6000 set without the server stays 6000, above the catalogue maximum |
| Params.TableGet | engine-core/src/params.rs:921-1003 | axes and row-major cells of a table; the fixed-capacity vectors drop nothing |
| Params.WriteCellChangesOneEntry | engine-core/src/params.rs:1017-1072 | a cell write succeeds exactly in range and inside the table, and changes exactly one row-major entry of that table |
| Params.WriteAxisChangesOneAxis | engine-core/src/params.rs:1086-1120 | an axis write succeeds exactly if it fits, replaces the leading entries, and changes nothing else |
| ConfigChecksum.ConfigCrc | engine-core/src/params.rs:1170-1192 | the nested loops compute FNV-1a over parameters, tables and firing order |
| ConfigChecksum.KnownValue | engine-core/src/params.rs:1126-1141 | the published FNV-1a value of "foobar" |
| ConfigChecksum.CoveredInOrder | engine-core/src/params.rs:1170-1192 | which fields are hashed, in which order, from the standard start value |
| ConfigChecksum.FloatBytesAt | engine-core/src/params.rs:1170-1187 | each value is hashed as its four bytes, the lowest first |
| ConfigChecksum.OneByteChangesCrc | engine-core/src/params.rs:1126-1138 | a change of one covered byte always changes the checksum |
| ConfigChecksum.BytesDetermineConfig | engine-core/src/params.rs:1166-1192 | configurations with the same covered bytes are equal: nothing tunable escapes the checksum |
| ConfigServer.Device.Serve | sim/src/serve.rs:108-125 | state and response of each request, with the RAM copy stored when the server asks for it; `ConfigRequests` says over whole runs what each of the nine leaves and answers |
| ConfigServer.Device.Handle | engine-core/src/comms/rdp.rs:342-385 | the same before storing, and which requests ask for it |
| ConfigServer.Device.OpParamGet | engine-core/src/comms/rdp.rs:602-632 | the values of all identifiers in order, or the first one that is not a parameter |
| ConfigServer.Device.OpParamSet | engine-core/src/comms/rdp.rs:634-653 | one answer per entry in order; accepted entries are applied, refused ones are not, and dirty is set exactly by an accepted one |
| ConfigServer.Device.ApplyParamSet | engine-core/src/comms/rdp.rs:655-689 | the first failing check decides the answer; only success writes |
| ConfigServer.Device.OpTableSetCell | engine-core/src/comms/rdp.rs:713-738 | answer and effect of a cell write request |
| ConfigServer.Device.OpTableSetAxis | engine-core/src/comms/rdp.rs:740-765 | answer and effect of an axis write request |
| ConfigServer.Device.TableWriteCell | engine-core/src/params.rs:1017-1072 | the range check comes first, then the bounds; one branch per table writes that table's field |
| ConfigServer.Device.TableWriteAxis | engine-core/src/params.rs:1086-1120 | one branch per axis copies into that axis's field; the others are refused |
| ConfigRuns.RunsStayConsistent | engine-core/src/comms/rdp.rs:347-385 | over every run of requests, not dirty implies RAM equals flash, and the stored checksum is that of flash |
| ConfigRuns.CleanReportsAgree | engine-core/src/comms/rdp.rs:378-385 | after any run a status that says clean shows equal checksums |
| ConfigRuns.DiscardRestoresLastSave | engine-core/src/comms/rdp.rs:358-362 | discarding after any requests without a save restores the last saved configuration exactly |
| ConfigRuns.RunsStayInRange | engine-core/src/comms/rdp.rs:634-765 | over every run all catalogued parameters and all cells of RAM and flash stay in range |
| ConfigRuns.EachParamReadsLastAccepted | engine-core/src/comms/rdp.rs:634-689 | after a list of entries each parameter reads as its last accepted entry, or as before; tables do not move |
| ConfigRuns.GeometryWhileRunning | engine-core/src/comms/rdp.rs:358-376 | over a run with the engine turning, stopped-only parameters stay those of RAM, unless a discard comes before the first save, then they are those of flash |
| ConfigRuns.GeometryChangesIffDiscarded | engine-core/src/comms/rdp.rs:358-362 | so they change if and only if a discard comes first and RAM and flash differ in them |
| ConfigRuns.DiscardChangesRunningEngine | engine-core/src/comms/rdp.rs:358-362 | 400 cc written with the engine stopped become the stored 375 cc again by a discard while it runs |
| ConfigRequests.ResetLoadsDefaults | engine-core/src/comms/rdp.rs:363-377 | after any run a reset with 0xDEFA and the engine stopped makes RAM the defaults, marks it unsaved and leaves the stored copy; any other changes nothing, and the answer is success if and only if the defaults were loaded |
| ConfigRequests.SaveStoresRam | engine-core/src/comms/rdp.rs:347-357 | after any run a save stores RAM with its checksum, which it answers |
| ConfigRequests.ResetThenSave | engine-core/src/comms/rdp.rs:347-377 | after any run a reset and a save make RAM and the stored copy the defaults, clean |
| ConfigRequests.OthersKeepOrReturn | engine-core/src/comms/rdp.rs:342-385 | after any run a discard makes RAM the stored copy; reads and bodies that do not decode change nothing |
| ConfigRequests.StatusSaysWhatChanged | engine-core/src/comms/rdp.rs:378-385 | over every run from a clean device the status says "unsaved" if and only if an accepted change came after the last save or discard, with the checksums of RAM and of the stored copy |
| ConfigRequests.ParamGetReadsFields | engine-core/src/comms/rdp.rs:602-632 | by number: a read answers the fields of RAM in order, or names the first number that is no parameter |
| ConfigRequests.ParamSetCodes | engine-core/src/comms/rdp.rs:655-689 | by number: unknown, refused while running, badly formed, out of the range written out here, or accepted, in this order |
| ConfigRequests.EachEntryAnswered | engine-core/src/comms/rdp.rs:634-653 | every entry of a list is answered at its place |
| ConfigRequests.ParamWrittenThenRead | engine-core/src/comms/rdp.rs:634-689 | after any run an accepted value is read back under its number as written, tooth counts truncated; no other parameter or table moves, and nothing is stored |
| ConfigRequests.TableShapes | engine-core/src/params.rs:921-1003 | which numbers are tables, and the sizes of their axes and rows |
| ConfigRequests.TableGetReadsFields | engine-core/src/params.rs:921-1003 | by number: a read answers the axes of the table and its cells row by row, or that there is none |
| ConfigRequests.CellWriteCodes | engine-core/src/comms/rdp.rs:713-738 | by number: no such table, out of the range written out here, outside the table, or success, in this order |
| ConfigRequests.CellWrittenThenRead | engine-core/src/comms/rdp.rs:713-738 | after any run a cell write answered with success replaces that cell alone |
| ConfigRequests.AxisWriteCodes | engine-core/src/comms/rdp.rs:740-765 | by number: no such table, too many values or no such axis, or success |
| ConfigRequests.AxisWrittenThenRead | engine-core/src/comms/rdp.rs:740-765 | after any run an axis write answered with success replaces the leading entries of that axis alone |
| Faults.FaultStore.Raise | engine-core/src/comms/faults.rs:87-107 | updates the record of the code or adds one if there is room; true exactly if the code became active |
| Faults.FaultStore.Resolve | engine-core/src/comms/faults.rs:112-118 | marks the record inactive; true exactly if it was active |
| Faults.FaultStore.ClearMask | engine-core/src/comms/faults.rs:123-135 | keeps the records that are active or not selected by original position and counts the others; `Faults.ClearRemovesExactlySelected` says which bit selects which |
| Faults.ClearRemovesExactlySelected | engine-core/src/comms/faults.rs:123-135 | for every mask the record at place i survives if and only if it is active or the bit of weight 2^i is clear, and nothing is added |
| Faults.OneBitClearsOneRecord | engine-core/src/comms/faults.rs:123-135 | the mask 2^i takes the record at place i out, unless it is active, and leaves the others as they are |
| Faults.KeptInOrder | engine-core/src/comms/faults.rs:126-133 | the survivors keep their order |
| Faults.ClearKeepsActive | engine-core/src/comms/faults.rs:120-135 | a clear neither removes nor adds an active fault |
| Faults.EventQueue.Push | engine-core/src/comms/faults.rs:203-209 | appends, dropping the oldest event of a full queue |
| Faults.EventQueue.Pop | engine-core/src/comms/faults.rs:212-214 | takes the oldest event |
| Faults.EightEventsWait | engine-core/src/comms/faults.rs:203-209 | eight events wait; the next one takes the place of the oldest |
| Faults.Notifier.NoteFault | engine-core/src/comms/rdp.rs:220-225 | raises and announces a fault that became active |
| Faults.Notifier.NoteFaultCleared | engine-core/src/comms/rdp.rs:228-233 | resolves and announces a fault that was active |
| Faults.Notifier.Note | engine-core/src/comms/rdp.rs:236-262 | pushes an event of another kind and touches no fault |
| Faults.Notifier.ClearFaults | engine-core/src/comms/rdp.rs:421-427 | clears by mask, counts what went, and pushes nothing |
| Faults.OthersKeepApart | engine-core/src/comms/rdp.rs:236-262 | an event of another kind is queued as it is and touches no record; a clear of records touches no event |
| Faults.Notifier.PollEvent | engine-core/src/comms/rdp.rs:285-299 | with room for a header the oldest event leaves the queue; it is handed out if and only if its encoded body fits too, and is lost otherwise |
| Faults.PollTakesOldest | engine-core/src/comms/rdp.rs:285-299 | the room of three bytes and the room for the body in literals: what a poll leaves and what it hands out |
| FaultTraces.StepAnnouncesChange | engine-core/src/comms/rdp.rs:220-233 | an operation pushes a fault event for a code exactly when it changes whether the code is active, the matching one, with the time of the operation and the detail of the fault, or 0 when it is gone |
| FaultTraces.FaultEventsAlternate | engine-core/src/comms/rdp.rs:220-233 | over every run codes stay unique, the fault events of each code alternate, and it is active if and only if the last was "set" |
| FaultTraces.RecordSummarisesRaises | engine-core/src/comms/faults.rs:87-107 | over every run without clears, the record of a code holds the saturating count, first and last time, severity and detail of all its raises; a raised code lacks one only if the store is full |
| FaultTraces.QueueIsSuffix | engine-core/src/comms/faults.rs:203-214 | over every run the queue is a suffix of at most eight of the pushed events, events are handed out in push order, and each is handed out, waiting, dropped on overflow or lost for want of room |
| FaultTraces.NothingLostWithoutOverflow | engine-core/src/comms/faults.rs:203-214 | without overflow and with room for every body, the events handed out and waiting are exactly those pushed |
| Control.Overrides.Set | engine-core/src/comms/control.rs:66-72 | fills the slot with the value and the wrapped end of the clamped timeout; other slots stay |
| Control.Overrides.Clear | engine-core/src/comms/control.rs:75-77 | empties one slot and tells whether it was filled |
| Control.Overrides.ClearAll | engine-core/src/comms/control.rs:80-82 | empties every slot |
| Control.Overrides.Get | engine-core/src/comms/control.rs:85-93 | the value, or nothing once expired, which also empties the slot; other slots stay |
| Control.ExpiredByAge | engine-core/src/comms/control.rs:88-91 | whether an override counts as expired depends on its true age alone, across the wrap of the clock |
| Control.EndsOnTimeIffPolledInTime | engine-core/src/comms/control.rs:66-93 | an override set for 1 to 30000 ms, other times being held to that, is active exactly before its end and stays ended, over every series of polls, if and only if the first poll after the end comes less than 2^31 - 1 ms after it, modulo 2^32 |
| Control.LatePollFindsOverrideActive | engine-core/src/comms/control.rs:88-91 | set for a second and first asked half a turn of the clock after its end, an override is active |
| Tune.TuneDevice.HandleRequest | engine-core/src/comms/mod.rs:164-221 | the response of each command, silence for requests too short or answers too long, and the page after a write |
| Tune.PlainAnswers | engine-core/src/comms/mod.rs:164-221 | the bytes of the answers to "S", "V", "F" and "B", and to every letter that is no command |
| Tune.OutputsAnswered | engine-core/src/comms/mod.rs:164-221 | the answer to "O": OK and the range of the outputs, or rejected if it is not inside |
| Tune.ReadAnswered | engine-core/src/comms/mod.rs:164-221 | the answer to "R": the same of the page, whatever page is named |
| Tune.ChecksumAnswered | engine-core/src/comms/mod.rs:164-221 | the answer to "k": OK and the checksum of the range, high byte first |
| Tune.WriteAnswers | engine-core/src/comms/mod.rs:164-221 | "C": a write that fits replaces its range and is answered OK; any other is rejected and changes nothing |
| Tune.SilentIff | engine-core/src/comms/mod.rs:164-221 | a request goes unanswered if and only if it is empty or too short for the numbers of its command |
| Tune.TuneDevice.ServeFrame | stm32/src/main.rs:421-447 | a complete legacy frame is decoded, handled and answered by a frame |
| Tune.FrameAnsweredIff | stm32/src/main.rs:421-447 | an answer goes out as one frame unless it is longer than the page and eight bytes or than 65535 |
| Packet.EncodePacket | protocol/src/packet.rs:48-78 | frames exactly the payloads of 1 to 32768 bytes that fit the buffer, with the bytes the device uses |
| Packet.ReceiveFrame | protocol/src/io.rs:47-71 | what either side frames is taken off exactly, within the host's limits |
| Packet.ReceivePrefix | protocol/src/io.rs:47-71 | a frame cut short is refused with the bytes it needs and has |
| Packet.ReceiveCorrupted | protocol/src/packet.rs:91-129 | a frame of any payload with any other checksum behind it is refused for its checksum |
| Packet.SameFramesAsDevice | protocol/src/packet.rs:91-129 | host and device accept the same frames, apart from empty payloads |
| EcuClient.EcuClient.ExecuteOk | client/src/client.rs:49-66 | one request through both framings: the device's answer, or the error of the first stage that fails |
| EcuClient.ExchangeOutcome | client/src/client.rs:49-66 | for every request the outcome is what the host makes of the frame the device answers with: its bytes, the refusing code, a framing error, or none |
| EcuClient.RequestBytes | client/src/client.rs:96-161 | the bytes of read and write requests |
| EcuClient.EcuClient.WriteChunk | client/src/client.rs:136-161 | for every page, offset and chunk size the result and the page are those of the chunks taken one after the other at the low 16 bits of their offsets, up to the first refused one |
| EcuClient.EcuClient.ReadImage | client/src/client.rs:96-132 | for every page and chunk size the result is that of the reads taken one after the other, up to the first failing one; the page stays |
| EcuClient.WritesInPlace | client/src/client.rs:136-161 | in a page below 2^16 bytes, or where every chunk begins below 2^16: inside the page the whole range is replaced, otherwise the page holds exactly the chunks in front of the first refused one; chunks too large for a packet change nothing |
| EcuClient.ReadsFaithfullyIff | client/src/client.rs:96-132 | for every page size, reading gives the first bytes of the page, whatever it holds, if and only if the page is that long, a chunk and its code fit a packet and every chunk begins below 2^16 |
| EcuClient.OversizedReadFails | client/src/client.rs:96-132 | a chunk too large for a packet fails at the first request with a stated error |
| EcuClient.WriteThenReadIff | client/src/client.rs:96-161 | where every chunk begins below 2^16, writing a range and reading back gives the old page with that range replaced if and only if the chunks fit a packet both ways |
| EcuClient.ZeroFactorRepeats | client/src/client.rs:96-161 | with a chunk size of zero one turn of either loop is accepted and changes nothing, except for a write that begins past the page, which is refused at once |
| EcuClient.WriteRoutedIffShort | stm32/src/main.rs:277-283 | on the shared line a write request is understood if and only if it carries at most 250 bytes |
| EcuClient.WriteOf251BytesNotUnderstood | stm32/src/main.rs:277-283 | a write of 251 bytes is not taken as a legacy request |
| Conversation.RequestReachesDevice | stm32/src/main.rs:354-397 | in any cutting a message to an idle device is handed to the server as sent if and only if it has at most 1024 bytes; the device is idle again and has nothing left |
| Conversation.RequestAnswered | client/src/rdp.rs:401-427 | a request cut anyhow is handled by the server, and through pushes and answers to others, cut anyhow, the session returns the body of exactly its answer; what comes later stays |
| Conversation.AnswerEndsWaitIff | client/src/rdp.rs:410-427 | the answer to request j ends the wait of a later request k if and only if k - j is a multiple of 65535 |
| Conversation.LateAnswersSkipped | client/src/rdp.rs:410-427 | answers to all earlier requests of a session of up to 65535 stand in front of the own answer, which is the one taken |
| Conversation.ConversationFollowsServer | client/src/rdp.rs:401-427 | over a whole conversation, with pushes and late answers to earlier requests in front of every answer, the host gets exactly the answers that the server alone gives to the decoded requests in order, and the configuration ends as that run leaves it |

## Left out

- Streams.TelemetryStreams.EncodeDueFrame: dividing a reading by its channel's scale is a parameter of the snapshot, as a real number, so rounding of the single-precision division is not modelled.
- HostTelemetry.TelemetryClient.QueueTelemetry: values are the raw numbers; the host's multiplication by the channel's scale is not modelled.
- Schedule.StreamIsPaced: assumes times before the wrap of the clock; Service.StreamPacedUnlessWrapped is the statement across wraps, Schedule.DueAgainAtOnceIffWraps and Schedule.DrainStopsIffClockHolds say what happens at one.
- Params.WriteCellChangesOneEntry: the arrays of the configuration are sequences that a write replaces, so sharing of one array between two fields is not captured; the same holds of axes.
- ConfigChecksum.BytesDetermineConfig: tooth counts from 2^24 on share a float with their neighbours, so equal bytes are only decisive below; the accepted range ends at 256.
- ConfigRuns.RunsStayInRange: axes have no catalogued range and no check in the source, so nothing is claimed of their values.
- EcuClient.EcuClient.WriteChunk: the chunk size is zero only where nothing is to be written or the first request is refused; otherwise the loop of the source does not end (EcuClient.ZeroFactorRepeats).
- EcuClient.EcuClient.ReadImage: the chunk size is zero only where nothing is to be read, for the same reason.
- EcuClient.WriteThenReadIff: says nothing of pages where a chunk begins at 2^16 or above; such a page is not read faithfully (EcuClient.ReadsFaithfullyIff).
- Demux.CommsTask.HandleRdp: the reassembled request is recorded for the server instead of being answered; Conversation.RequestAnswered hands it on.
- ConfigServer.Device.Handle: the answer to a save carries its checksum but not the size of the structure in bytes.
- Session.RdpSession.RoundTrip: the answers on the stream are arbitrary here, and computed from the request in Conversation.RequestAnswered; pushed events are skipped, as decoding their body is not modelled.
- Conversation.ConversationFollowsServer: covers the nine configuration operations; the codec of bodies is arbitrary, and its answers are taken to fit a message, as the source answers with a status where one does not.
- Faults.Notifier.PollEvent: the size of an encoded event is a parameter.
- Request and response bodies in CBOR are taken as decoded values; the external codec is not part of this model. A body that does not decode is one request form.
- The read-only answer to a parameter write cannot occur, as no catalogued parameter has that flag.
- The external CRC-32 library of the host is taken to compute the checksum of the device.
- `request_output_channels` is the loop of `read_image` over another command; the older cell and array accessors of the parameter module are not reached by requests.
- Descriptor catalogues, schema hashes, bench tests, calibration, clearing on disconnect, burning the page to flash: single-branch code or fixed tables.
- Hardware drivers, transports, engine control algorithms, OBD-II and dash encoders, the command line, image files and the code generator.
