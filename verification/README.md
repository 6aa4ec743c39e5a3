# Verified model of the baresip / barertc media path

This project models, in Dafny, the parts of the repository where a result depends on many steps: the H.264
packetizer and its receiver, the RTP receive arithmetic, the paced video send queue, the restund database
thread, and four small state machines (tone player, command editor, line numbers, peer-connection signalling).
`dafny verify dfyconfig.toml` checks everything.

Code that updates state is modelled by classes and loops. Each method is proved equal to a function on values
(`Abs()` gives the value of an object), and the theorems are about those functions: over every input, or over
every run of events. Threads are modelled as runs of locked sections in any order.

Main results, by module:

- **H264Startcode** – the word-at-a-time scanner returns what the naive scan returns, for every buffer, pointer
  alignment and byte order.
- **H264Packetize / H264Depacketize / H264RoundTrip / H264Weight / H264Exact** – splitting and joining NAL units are
  inverse to each other; fragmentation loses nothing; the receiver of the avcodec module hands the original buffer to
  the video decoder *if and only if* every NAL is deliverable, a condition on the NAL units alone (`EndToEndExactly`).
- **H264Units / H264Sources** – for packets of any kind in any order, the receiver's byte buffer with its rewind
  position refines a receiver that keeps a list of NAL units (`ReceiverKeepsUnits`); every unit of every picture arrived
  whole or in consecutive fragments (`PicturesHaveSources`).
- **H264Aggregate / H264Pieces** – what any aggregation packet decodes to (`StapParses`, `AggregateArrives`); a NAL unit
  sent piece by piece arrives as one (`PiecesRebuilt`).
- **H264Dropped / H264Frames** – a frame of which the sender could not queue a packet never arrives as it was sent
  (`DroppedIsLost`); any number of frames arrive unchanged and in order if and only if all packets were queued and all
  NAL units are deliverable (`FramesExactly`).
- **H264Stream / H264Loss / H264Splice / H264LossExact / H264AccessUnits** – when packets are lost, the pictures handed
  to the video decoder consist of whole NAL units, each at most once and in the order they were sent, unless 16-bit
  sequence numbers mislead the receiver (`OnlyWholeNals`); exactly when they do (`SpliceExactly`), which pictures are
  handed on (`PicturesExactly`), and when each stays inside one access unit (`OneAccessUnitExactly`).
- **VideoSendQueue / VideoPipeline / VideoTiming** – the queue is first-in first-out, never holds packets of two frames,
  and sends at most (polls + milliseconds) * kbps / 4 bytes plus a packet per poll, in every interleaving; packetizer,
  queue and receiver together deliver all encoded buffers in order under exactly the condition above
  (`PipelineDeliversAll`), and the receiver measures the time between the frames (`TimestampsArrive`).
- **RtpTimestamp / RtpSequence** – timestamp unwrapping follows the time of the last accepted packet; reported losses,
  accepted packets and jumps add up to the distance travelled.
- **RtpExtension / RtpHeader** – which packets are dropped, told by their bytes (`HandleExactly`); header, extensions and
  payload arrive as they were sent under exactly stated conditions (`PacketRoundTrip`).
- **TrafficLog / CredentialCache** – traffic records are neither lost, duplicated nor reordered, and the thread ends
  after it is told to; a credential lookup finds an account if and only if the last completed synchronisation has it.
- **TonePlayer / TonePauses, CommandEditor / CommandLine, LineNumbers, PeerConnection** – whole-run properties of the
  four machines, told by the events of a run and their results.

Where a property one would expect is false of the code, the code is kept and the exact condition is proved. If the
condition speaks of reachable states, a lemma also gives a run that gets there:

- a single-NAL packet can exceed the packet size by one byte (`PacketSizeBound`);
- adjacent start codes make an empty NAL, and nothing else does (`NoEmptyNalExactly`, `EmptyNalExample`);
- NALs with the forbidden bit, with a packet type as NAL type, or beyond the decoder's buffer limit are not rebuilt
  (`NalRoundTrip`);
- the send queue does not keep to the bitrate: the allowance of a poll can be more than twice what the comment above it
  promises, so a poll keeps to the bitrate if and only if everything that is queued does (`TimerKeepsBitrateExactly`,
  `BitrateKeptExactly`, `OverBitrateExample`);
- 65536 lost packets in a row can splice two NALs into one (`SpliceExactly`, `SpliceExample`);
- a lost marker can put two access units in one picture (`OneAccessUnitExactly`, `MergeExample`);
- a jump of 3000 or more sequence numbers goes unreported (`BalancedExactly`, `JumpResyncs`);
- the sender takes a timestamp of 0 for none, and then measures less time than the receiver (`DurationsAgreeExactly`);
- header extensions of sixteen bytes lose their data, and elements after the eighth are ignored (`ExtensionRoundTrip`);
- losses before the first decoded packet go unreported if the first sequence number is 0 (`LossesExactFromStart`,
  `LostLossExample`);
- the audio receiver drops the frame that crosses each timestamp wrap-around (`AudioExactly`, `AudioAgreesWithVideo`);
- the database thread can wait while records are queued (`WaitsOnQueuedRecords`, `MissedSignalExample`), and a failing
  write at close loses records (`CloseLosesNothingOld`, `FailedCloseExample`);
- all bytes of a tone can have been played before the end is noticed (`PlaysAll`, `EndUnnoticedExample`), and a clock
  that reads 0 makes the player skip a repetition (`PlaysExactly`, `ZeroClockExample`);
- a lone slash means nothing to the editor, but names a command in the string form (`TypingIsLongCommand`,
  `LoneSlashExample`).

The comment of `h264_packetize` calls its size parameter the maximum RTP packet size; the code does not keep to it,
and the model follows the code.

## Model

| member | source | states |
|---|---|---|
| H264Startcode.ScanStartcode | baresip/src/h264.c:42-75 | the three-loop scanner returns the least position of 00 00 01 that is followed by a byte, or the end, for every alignment and byte order |
| H264Startcode.FirstStartcodeUnique | baresip/src/h264.c:42-75 | that position is the only one that fits the description, so the fast and the naive scan agree |
| H264Startcode.ZeroByteTestExact | baresip/src/h264.c:52-53 | the bit test of the word loop is non-zero if and only if one of the four bytes is zero, in both byte orders |
| H264Startcode.SkipWord | baresip/src/h264.c:51-53 | a word that fails the test can be skipped without changing the result |
| H264Startcode.WordOffsetExact | baresip/src/h264.c:54-65 | the four comparisons find the first start code that begins in the word, also one that ends in the next word, or rule all four positions out |
| H264Packetize.NalSend | baresip/src/h264.c:87-126 | the packets handed on are one packet or the fragments of the body, whatever the first and last flags and whatever the packet handler returns; the result is what its calls return, or'ed together |
| H264Packetize.SendFragments | baresip/src/h264.c:99-123 | the loop that rewrites the FU header in place produces the fragments of the specification |
| H264Packetize.FragmentsShape | baresip/src/h264.c:105-122 | start bit on the first fragment only, end bit and marker on the last only, all but the last full, none empty |
| H264Packetize.FragmentsConcat | baresip/src/h264.c:108-122 | the payloads of the fragments concatenate to the NAL body |
| H264Packetize.LongNalIsFragmented | baresip/src/h264.c:95-123 | a NAL longer than the limit gives at least two non-empty fragments of at most that many bytes each |
| H264Packetize.PacketSizeBound | baresip/src/h264.c:95-123 | a packet exceeds the limit, by one byte, exactly when the NAL body has as many bytes as the limit |
| H264Packetize.SkipZeros | baresip/src/h264.c:155-157 | the zero-skipping loop ends right behind the start code |
| H264Packetize.Packetize | baresip/src/h264.c:142-168 | the packets are those of the NAL units of the buffer in order, with the marker for the last NAL; the result is what the calls of the packet handler return, or'ed together |
| H264Packetize.JoinOfNals | baresip/src/h264.c:142-168 | putting the NAL units behind start codes again gives the buffer from its first start code on |
| H264Packetize.NalsWellFormed | baresip/src/h264.c:150-165 | no NAL unit is empty or contains a start code, for every buffer without adjacent start codes |
| H264Packetize.NalsOfJoin | baresip/src/h264.c:142-168 | splitting joined NAL units gives them back: the split is the inverse of the join |
| H264Packetize.MarkerOnLastPacketOnly | baresip/src/h264.c:96-122 | the marker is on exactly the last packet of an access unit |
| H264Packetize.NoEmptyNalExactly | baresip/src/h264.c:150-165 | the split of a buffer has no empty NAL if and only if no start code directly follows another one |
| H264Packetize.EmptyNalExample | baresip/src/h264.c:161-163 | a buffer with adjacent start codes: its empty NAL has a length the source would compute as -1 |
| H264Depacketize.FuRoundTrip | baresip/src/h264.c:19-34 | decoding the FU header the fragmenter writes gives start bit, end bit and type back |
| H264Depacketize.Decoder.ReadStap | baresip/modules/avcodec/decode.c:424-446 | the aggregation loop appends the units of `Stap`, which are those of H264Aggregate.StapParses |
| H264Depacketize.Decoder.ReadFragment | baresip/modules/avcodec/decode.c:370-423 | the state after a fragment, including lost, repeated and out-of-order ones |
| H264Depacketize.Decoder.Decode | baresip/modules/avcodec/decode.c:315-479 | the state after any packet and the error returned, which are those of H264Units.StepRefines |
| H264Depacketize.RunKeeps | baresip/modules/avcodec/decode.c:315-479 | whatever packets arrive, a rewind stays inside the buffer and delivered pictures stay delivered |
| H264Aggregate.StapParses | baresip/modules/avcodec/decode.c:424-446 | every aggregation payload is a list of units, each behind its length as two bytes in network order, and a rest of at most one byte or a malformed one; the loop appends exactly these units and succeeds exactly in the first case |
| H264Aggregate.AggregateArrives | baresip/modules/avcodec/decode.c:424-478 | an aggregation packet of any units appends their join; with the marker the picture is handed on, and a malformed end is an error |
| H264Units.StepRefines | baresip/modules/avcodec/decode.c:315-479 | every packet has the same effect and result on the byte buffer with its rewind position and on a receiver that keeps a list of NAL units and at most one open unit |
| H264Units.ReceiverKeepsUnits | baresip/modules/avcodec/decode.c:315-479 | over any packets in any order the buffer refines the list of units, and the pictures handed on are the joined lists |
| H264Sources.PicturesHaveSources | baresip/modules/avcodec/decode.c:315-479 | whatever packets arrive, lost, repeated or reordered: every picture is joined from units, each of which arrived whole or in consecutive fragments from its beginning to its end |
| H264RoundTrip.FragmentedNal | baresip/modules/avcodec/decode.c:370-423 | the fragments of a NAL rebuild it if and only if its forbidden bit is clear and the buffer limit is kept |
| H264RoundTrip.SingleNal | baresip/modules/avcodec/decode.c:329-368 | a NAL sent as one packet is taken in if and only if its type is 1..23, its forbidden bit clear, a slice has a key frame before it, and the limit is kept |
| H264RoundTrip.NalRoundTrip | baresip/src/h264.c:87-126 | the packets of a NAL leave the receiver with exactly that NAL if and only if it is deliverable |
| H264RoundTrip.TracksExactly | baresip/src/h264.c:142-168 | the receiver follows a whole access unit NAL by NAL if and only if each NAL is deliverable behind the ones before |
| H264RoundTrip.TrackedIsDelivered | baresip/modules/avcodec/decode.c:454-478 | the video decoder then gets the joined NAL units, once, with nothing counted as lost |
| H264RoundTrip.OrdinaryIsDeliverable | baresip/modules/avcodec/decode.c:335-365 | ordinary NAL types with clear forbidden bits, up to the buffer limit, are deliverable |
| H264Pieces.PiecesRebuilt | baresip/src/h264.c:87-126 | a NAL body given to the sender in two or more pieces, empty ones included, is taken in by the receiver as one NAL, if it fits in the buffer |
| H264Weight.StepLight | baresip/modules/avcodec/decode.c:315-479 | whatever the packet and the state, the receiver's buffer gains at most the weight the packet carries |
| H264Weight.RunDoomed | baresip/modules/avcodec/decode.c:315-479 | a buffer that is too light or has a wrong byte never becomes the picture that was sent, whatever NAL units follow |
| H264Exact.NalLoses | baresip/modules/avcodec/decode.c:315-479 | a NAL that is not deliverable leaves such a buffer, or loses the picture at once |
| H264Exact.ArrivedIsDeliverable | baresip/src/h264.c:142-168 | a picture that arrives as it was sent had only deliverable NAL units |
| H264Exact.EndToEndExactly | baresip/src/h264.c:142-168 | an idle receiver hands on the packetized buffer if and only if every NAL of it is deliverable |
| H264Dropped.DroppedIsLost | baresip/src/video.c:339-370 | a frame of which a packet could not be queued never arrives as it was sent, although the sequence numbers given on sending show no gap |
| H264Frames.FramesExactly | baresip/modules/avcodec/decode.c:315-479 | for any number of frames, an idle receiver hands on all encoded buffers, unchanged and in order, if and only if every packet was queued and every NAL of every frame is deliverable; key frames count for later slices |
| H264Frames.RunAllAtMost | baresip/modules/avcodec/decode.c:454-478 | whatever the packets of the frames, at most one picture per frame is handed on and none is taken back |
| H264Loss.OnlyWholeNals | baresip/modules/avcodec/decode.c:347-423 | whatever packets are lost, all pictures handed on are joined from whole NAL units of the stream, each used at most once and in order, for streams without NALs that look like aggregations or fragments (a single NAL of type 24 or 28, a fragmented NAL with the forbidden bit) and arrivals without a splice: a continuation that has the number after the last fragment of a gapless beginning, but is not the next packet |
| H264Loss.ShortGaps | baresip/modules/avcodec/decode.c:399-408 | after a key frame, and with clear forbidden bits, there is no splice if fewer than 65536 packets in a row are lost |
| H264Stream.AccessUnitStream | baresip/src/h264.c:142-168 | the stream of an access unit is what the packetizer sends |
| H264Loss.SpliceExample | baresip/modules/avcodec/decode.c:399-408 | for every gap of 65536 packets or a multiple, a stream of which the receiver hands on the beginning of one NAL and the end of another as one |
| H264Splice.SpliceExactly | baresip/modules/avcodec/decode.c:399-423 | a continuation is taken in although the fragment before it is lost if and only if some pair of arrivals is a splice |
| H264Splice.SpliceMixes | baresip/modules/avcodec/decode.c:399-423 | a splice puts the payload of its second packet behind the beginning of the NAL of its first one |
| H264LossExact.PicturesExactly | baresip/modules/avcodec/decode.c:347-478 | without a splice, one picture is handed on for every access unit whose end arrives, made of the NAL units that arrived completely since the access unit closed before |
| H264AccessUnits.OneAccessUnitExactly | baresip/modules/avcodec/decode.c:454-478 | every picture stays inside one access unit if and only if no end of an access unit is lost while a NAL is buffered and a later access unit is closed |
| H264AccessUnits.MergeExample | baresip/modules/avcodec/decode.c:454-478 | a lost marked NAL, and a picture made of two access units |
| VideoSendQueue.Vtx.Poll | baresip/src/video.c:230-273 | a poll sends a prefix of the queue and leaves the rest |
| VideoSendQueue.PollCountExact | baresip/src/video.c:248-269 | the prefix is the shortest one that exceeds the allowance, or everything |
| VideoSendQueue.PollBytes | baresip/src/video.c:248-269 | a poll exceeds its allowance by at most one packet |
| VideoSendQueue.Vtx.PacketHandler | baresip/src/video.c:339-370 | header and payload are queued behind the others, with the timestamp and payload type of VideoTiming.TimestampsArrive; nothing is queued without memory |
| VideoSendQueue.FirstInFirstOut | baresip/src/video.c:230-445 | in every interleaving, packets sent followed by the queue are the packets appended by the events, and the queue is the end of one encode call |
| VideoSendQueue.FrameStartsOnDrainedQueue | baresip/src/video.c:392-399 | a frame that is encoded finds all packets before it sent |
| VideoSendQueue.RunWithinRate | baresip/src/video.c:245-286 | over any run the bytes sent are at most (polls + elapsed ms) * kbps / 4 plus one largest packet per poll |
| VideoSendQueue.BurstBound | baresip/src/video.c:248-251 | the allowance of a poll is at most (1 + ms) * kbps / 4 bytes, also when the 64-bit product wraps |
| VideoSendQueue.AllowanceIsCapped | baresip/src/video.c:248-251 | the allowance is at most 8192 bytes, and cut down to that exactly from (1 + ms) * kbps = 32768 on |
| VideoSendQueue.TimerKeepsBitrateExactly | baresip/src/video.c:245-269 | a poll keeps to ms * kbps / 8 bytes if and only if the whole queue does, unless the upper limit or a wrap-around cuts the allowance down |
| VideoSendQueue.BitrateKeptExactly | baresip/src/video.c:245-269 | for every allowance: all queues of packets of at most m bytes keep to the bitrate in a poll if and only if the allowance plus m bytes does |
| VideoSendQueue.OverBitrateExample | baresip/src/video.c:245-269 | at 800 kbit/s and 4 ms a poll sends over 1000 bytes where the bitrate allows 400 |
| VideoSendQueue.Drains | baresip/src/video.c:254-269 | n queued packets are sent, in order, within n polls |
| VideoPipeline.FrameSentWhole | baresip/src/video.c:382-445 | a frame has been sent whole and in order when the queue is empty again |
| VideoPipeline.PipelineDelivers | baresip/src/video.c:339-370 | packetizer, paced queue under any interleaving, and receiver together deliver the encoded buffer if and only if every packet could be queued and every NAL is deliverable |
| VideoPipeline.PipelineDeliversAll | baresip/src/video.c:339-445 | for any number of encode calls and any interleaving with the timer: once the queue is empty, a receiver fed with what was sent hands on all buffers in order if and only if every packet could be queued and every NAL of every frame is deliverable |
| VideoTiming.TimestampsArrive | baresip/src/video.c:339-370 | in every interleaving each packet that was sent carries the payload type and the timestamp of its frame plus the offset, and the receiver measures the time from the first to the last of them |
| VideoTiming.FramesElapsed | baresip/src/video.c:339-370 | for frames with 64-bit timestamps that step forward by less than 2^31 the duration the receiver measures is the last timestamp minus the first, for any offset |
| VideoTiming.DurationsAgreeExactly | baresip/src/video.c:352-354 | sender and receiver measure the same time if and only if the first timestamp is not 0, or all of them are |
| RtpTimestamp.WrapIsEpochDifference | baresip/src/timestamp.c:24-41 | for timestamps less than 2^31 apart the 32-bit comparison is the difference of their 2^32 epochs |
| RtpTimestamp.WrapLimit | baresip/src/timestamp.c:24-41 | at a distance of 2^31 a forward crossing goes unseen |
| RtpTimestamp.TimestampRecv.UpdateVideo | baresip/src/video.c:559-591 | the video receive state after a packet |
| RtpTimestamp.TimestampRecv.ReceiveAudio | baresip/src/audio.c:1123-1184 | the audio receive state after a packet, and whether it is discarded |
| RtpTimestamp.VideoTracks | baresip/src/video.c:559-591 | wraps * 2^32 + last is, modulo 2^64, the last accepted timestamp minus a fixed multiple of 2^32, for every stream of nearby packets of any length |
| RtpTimestamp.RejectedExactly | baresip/src/video.c:567-573 | a packet leaves the state alone exactly when it steps back over a 2^32 boundary or repeats the last one |
| RtpTimestamp.DurationIsElapsed | baresip/src/timestamp.c:65-75 | the duration is the time from the first to the last accepted packet, modulo 2^64, and 0 for no packets |
| RtpTimestamp.ForwardDuration | baresip/src/timestamp.c:65-75 | on forward streams of less than 2^64 ticks the duration is the true elapsed time |
| RtpTimestamp.AudioExactly | baresip/src/audio.c:1123-1184 | on every stream, also one that steps back, the audio receiver discards exactly the frames that are not later than the one before and those that step forward over a multiple of 2^32; the wrap counter counts the latter |
| RtpTimestamp.AudioAgreesWithVideo | baresip/src/audio.c:1123-1184 | on forward streams the audio state equals the video state, and the discarded frames are the repeated ones and one per wrap-around |
| RtpTimestamp.StrictlyForwardDiscards | baresip/src/audio.c:1123-1184 | on strictly forward streams of 64-bit timestamps the discard counter equals the wrap counter |
| RtpTimestamp.NoOverflowExactly | baresip/src/vidutil.c:68-71 | the 64-bit product overflows exactly above 18446744073709, which up to 4293 wraps cannot reach |
| RtpTimestamp.TimebaseMonotone | baresip/src/vidutil.c:68-71 | the conversion to microseconds is monotone up to that limit |
| RtpTimestamp.TimebaseBeyondLimit | baresip/src/vidutil.c:68-71 | directly above it the converted time drops |
| RtpTimestamp.TimebaseRoundTrip | baresip/src/vidutil.c:51-71 | converting back gives x for multiples of nine and x - 1 otherwise |
| RtpTimestamp.DisplayTimesMonotone | baresip/src/video.c:627-632 | display times of a forward stream never decrease |
| RtpSequence.Stream.Lost | baresip/src/stream.c:149-168 | loss count and new sequence number for every difference |
| RtpSequence.Stream.RtpHandler | baresip/src/stream.c:283-298 | first packet and source change restart the count, the latter with a flush |
| RtpSequence.Stream.Decode | baresip/src/stream.c:348-369 | the media handler gets the count, or zero |
| RtpSequence.RunBalanced | baresip/src/stream.c:149-168 | over any run of packets less than 3000 ahead and at most 100 behind the position never moves back and losses plus accepted packets equal the distance, across 16-bit wrap-arounds |
| RtpSequence.RunAccounts | baresip/src/stream.c:149-168 | over any run of packets at most 100 behind and 65435 ahead, losses, accepted packets and the numbers jumped over equal the distance |
| RtpSequence.BalancedExactly | baresip/src/stream.c:149-168 | in such a run all losses are reported if and only if no packet is 3000 or more ahead |
| RtpSequence.JumpResyncs | baresip/src/stream.c:160-165 | behind a jump of 3000 to 65435 the receiver is synced to the new number, and the count is right from there |
| RtpSequence.NewSourceRestarts | baresip/src/stream.c:283-298 | a new source is treated like the first one, and a flush is asked for exactly when the source changes |
| RtpSequence.LossesExactFromStart | baresip/src/stream.c:283-298 | from the first arrival the sum is right if and only if the first sequence number is not 0 or its packet is decoded first |
| RtpSequence.LostLossExample | baresip/src/stream.c:151-155 | sequence number 0 first, 5 decoded first: no loss reported |
| RtpExtension.HdrEncode | baresip/src/rtpext.c:21-38 | magic and word count in network order are written at the position and nothing else changes; or EINVAL for zero and for odd sizes, leaving the buffer alone |
| RtpExtension.EncodeElement | baresip/src/rtpext.c:41-67 | the element and its padding are written at the position, the bytes before and behind are kept and the end moves if need be; or EINVAL and nothing changes |
| RtpExtension.Pad | baresip/src/rtpext.c:62-64 | zeros up to a multiple of four are written, and nothing else changes |
| RtpExtension.DecodeElement | baresip/src/rtpext.c:70-112 | element and rest of the buffer, or the error of the first failing check |
| RtpExtension.SkipPadding | baresip/src/rtpext.c:101-109 | all zeros are skipped and nothing else |
| RtpExtension.DecodeAll | baresip/src/stream.c:215-225 | the loop decodes at most eight elements |
| RtpExtension.HandleRtp | baresip/src/stream.c:182-233 | what the media handler gets, which is that of RtpExtension.HandleExactly; position and end of the buffer are restored |
| RtpExtension.DecodeExactly | baresip/src/rtpext.c:70-112 | an element is read exactly when its identifier is 1 to 14 and its bytes are there, with one error for each |
| RtpExtension.HandleExactly | baresip/src/stream.c:182-233 | a packet is dropped if and only if it announces a non-empty extension of type 0xbede that reaches back before the buffer or in which one of the first eight elements is malformed; otherwise it is delivered, with those elements or, for another type or none, with an empty list |
| RtpExtension.ListRoundTrip | baresip/src/stream.c:215-225 | an encoded list is read back if and only if it fits and no element has sixteen bytes |
| RtpExtension.EncodedLength | baresip/src/rtpext.c:55-64 | every element takes one to five whole words |
| RtpExtension.ExtensionRoundTrip | baresip/src/stream.c:182-233 | sender to receiver: the header is never rejected, and the list arrives if and only if it has at most eight elements of at most fifteen bytes |
| RtpHeader.WriteHeader | re/src/rtp/rtp.c:53-78 | the header bytes are written at the position and nothing else changes |
| RtpHeader.ReadHeader | re/src/rtp/rtp.c:89-138 | header, type and length of the extension, and the rest of the packet, or an error for a packet that is too short or has another version |
| RtpHeader.PacketRoundTrip | re/src/rtp/rtp.c:53-138 | sender to media handler: header, extensions and payload arrive as sent if and only if the version is 2, the payload type has seven bits, there are at most fifteen sources, and at most eight extensions of at most fifteen bytes |
| TrafficLog.Database.LogTraffic | restund/src/db.c:272-312 | a record is appended exactly when it is complete, the thread runs, a traffic handler is there and memory is; otherwise EINVAL, success without effect, or ENOMEM |
| TrafficLog.Database.SaveTrafficRecords | restund/src/db.c:172-211 | records are written from the head; the one that fails is back at the head |
| TrafficLog.Database.Close | restund/src/db.c:395-412 | what is not written by the last round is discarded |
| TrafficLog.StepInv | restund/src/db.c:172-261 | every locked section keeps conservation and what the thread knows about quit |
| TrafficLog.WrittenInOrder | restund/src/db.c:172-304 | in every interleaving written, discarded, in-flight and queued records are the logged ones in order |
| TrafficLog.CloseLosesNothingOld | restund/src/db.c:225-261 | after close every record logged before quit is written unless the last write failed; then that record is the first one discarded |
| TrafficLog.FailedCloseExample | restund/src/db.c:198-205 | a failing last write loses a record appended before quit |
| TrafficLog.WaitsOnQueuedRecords | restund/src/db.c:236-246 | the thread waits with records queued and no signal if and only if its last write failed or a record was logged between its last look at the FIFO and the wait; a record or quit that comes during the wait always signals it |
| TrafficLog.MissedSignalExample | restund/src/db.c:236-246 | a run in which the thread waits and a record is queued |
| TrafficLog.ThreadEnds | restund/src/db.c:225-261 | once quit is set the thread takes at most four steps per record and seven more, and until it has exited there is a step it can take |
| TrafficLog.UndisturbedRound | restund/src/db.c:172-211 | without interference a round of the interleaved machine, whether a write fails or not, writes the records before the failing one and leaves the others in order |
| CredentialCache.TableSize | restund/src/db.c:138-139 | a power of two, at least four and the number of accounts, below twice that number above four |
| CredentialCache.SearchBucket | restund/src/db.c:71-77 | the first account of the bucket with the name, or none exactly when no account has it |
| CredentialCache.FirstMatchExactly | restund/src/db.c:71-77 | a linear search finds an account if and only if it has the name and none before it has, and nothing if and only if none has |
| CredentialCache.IndexIsRemainder | re/src/hash/hash.c:84 | the masked key is the key modulo the table size, so every bucket is in use |
| CredentialCache.BucketSearchIsLinearSearch | re/src/hash/hash.c:78-115 | searching one bucket finds what a linear search of all accounts finds |
| CredentialCache.AppendHolds | re/src/hash/hash.c:78-84 | appending an account keeps the table equal to the account list |
| CredentialCache.Credentials.SyncCredentials | restund/src/db.c:123-169 | all new accounts come into force, or the old table stays |
| CredentialCache.StoredExactly | restund/src/db.c:88-120 | a search of the stored accounts finds the account of the first stored report with the name, and nothing exactly when no stored report has it |
| CredentialCache.Credentials.GetHa1 | restund/src/db.c:315-344 | authentication handler first; otherwise the key of the first account with the name in the last complete list, and none exactly when the thread does not run or no account has the name |
| CredentialCache.LookupSeesLastSync | restund/src/db.c:123-169 | at any moment of any run, also during a synchronisation, a lookup finds an account if and only if it is in the first stored report with that name since the beginning of the last synchronisation that was completed; nothing after the close |
| TonePlayer.Player.CheckRestart | baresip/src/play.c:90-111 | counter, pause and end flag after the end of the tone |
| TonePlayer.Player.WriteHandler | baresip/src/play.c:117-152 | the frame holds the copied bytes, then silence only at the end of playback; the clock is read at most twice |
| TonePlayer.Player.CopyLoop | baresip/src/play.c:130-145 | the copy loop terminates with at most one restart |
| TonePlayer.ServeIsWrite | baresip/src/play.c:117-152 | the run model of a request copies and changes what the handler does |
| TonePlayer.PlaysExactly | baresip/src/play.c:90-152 | for all frame sizes and clock readings the bytes are a prefix of the repeated tone (no count means once); all of it exactly when no repetition was skipped and the end was noticed or fell on the end of a frame |
| TonePlayer.PlayedAtEnd | baresip/src/play.c:102-108 | at the end of playback every repetition but the skipped ones has been played |
| TonePlayer.NothingSkipped | baresip/src/play.c:105-108 | no repetition is skipped when no clock reading plus delay is 0 modulo 2^64 |
| TonePlayer.PlaysAll | baresip/src/play.c:90-152 | with such a clock all of the repeated tone has been played exactly when the end was noticed or the last repetition ended with a frame |
| TonePlayer.EndUnnoticedExample | baresip/src/play.c:130-145 | a tone that ends with the frame: everything is played and the end is not noticed yet |
| TonePlayer.PlaysForEver | baresip/src/play.c:102-108 | with a negative count the tone is repeated and never ends |
| TonePauses.PausesExactly | baresip/src/play.c:90-111 | before each repetition there is a pause that ends at the first clock reading at which it is due, the reading at its beginning plus the delay, and no byte of the repetition is copied before |
| TonePlayer.ZeroClockExample | baresip/src/play.c:94-108 | a clock reading of 0 without delay skips a repetition |
| CommandEditor.Commands.Lookup | baresip/src/cmd.c:115-138 | the nested loops find the first match of the latest block that has one |
| CommandEditor.FoundExactly | baresip/src/cmd.c:115-138 | a lookup finds a command if and only if it is the first match of the latest block that has one, and nothing if and only if no command matches |
| CommandEditor.FoundFits | baresip/src/cmd.c:115-138 | what is found has a handler, and the key or, but for the case of letters, the name that was looked for |
| CommandEditor.CaseIgnored | baresip/src/cmd.c:500 | names are the same if and only if they have the same length and differ at most in the case of letters |
| CommandEditor.Commands.FindBlock | baresip/src/cmd.c:96-112 | the first block with the address, or none |
| CommandEditor.Commands.RegisterCmds | baresip/src/cmd.c:408-460 | the error of the first failing check, or the block is appended |
| CommandEditor.RegisteredExactly | baresip/src/cmd.c:408-460 | a block is accepted if and only if it is not empty, not registered, and no command has the prefix key or a key or name that is taken; otherwise the first failing check decides about the error |
| CommandEditor.Commands.UnregisterCmds | baresip/src/cmd.c:469-472 | the block goes away, the others keep their order |
| CommandEditor.RunInv | baresip/src/cmd.c:408-472 | in every run no command has the prefix key, and blocks share no key and no name |
| CommandEditor.UnregisterUndoesRegister | baresip/src/cmd.c:408-472 | unregistering restores the registry |
| CommandEditor.LookupIsUnambiguous | baresip/src/cmd.c:483-506 | in every reachable registry a lookup does not depend on the block order |
| CommandEditor.InputKeys | baresip/src/ui.c:100-120 | the loop has the effect of processing the keys one by one, and a new line |
| CommandEditor.TypingEdits | baresip/src/cmd.c:195-274 | editing keys change the text as the editor says and call nothing |
| CommandEditor.OrdinaryTyping | baresip/src/cmd.c:261-264 | ordinary characters give the typed text |
| CommandEditor.TypedLongCommand | baresip/src/cmd.c:360-396 | typing a slash and editing keys, with backspaces and completions, runs the edited long command |
| CommandEditor.TypingIsLongCommand | baresip/src/ui.c:100-151 | typing a slash and a text has the effect of the string form, except for a lone slash when a command of that name exists |
| CommandEditor.LoneSlashExample | baresip/src/ui.c:100-151 | a registry with a command called "/", for which the two forms differ |
| CommandLine.LongCommandExactly | baresip/src/cmd.c:312-354 | spaces, a name, spaces and a parameter call the command of that name with exactly that parameter, freed from quotes around it; without such a command nothing is called |
| CommandLine.EveryLine | baresip/src/cmd.c:326 | every string is such a line or consists of spaces |
| CommandLine.SlashIsOptional | baresip/src/ui.c:131-151 | the string form does the same with and without the slash |
| CommandLine.ErasingUndoesTyping | baresip/src/cmd.c:216-222 | as many backspace or delete keys as characters typed give the text back |
| CommandLine.CompletedExactly | baresip/src/cmd.c:224-258 | the tabulator key gives the name of a command if and only if it is the only one whose name starts with the text, and changes nothing otherwise |
| CommandLine.KeyCommandExactly | baresip/src/cmd.c:520-597 | a key calls its command at once, or with what is typed behind the key, and with the key itself if that is a digit |
| CommandLine.KeyWithoutEffect | baresip/src/cmd.c:520-597 | the escape key abandons a command that waits for its parameter; a key without a command does nothing, and key code 0 is refused |
| LineNumbers.UserAgent.FindLinenum | baresip/src/call.c:2409-2422 | the first call with the line number |
| LineNumbers.UserAgent.AssignLinenum | baresip/src/call.c:601-614 | the least free line number, or none |
| LineNumbers.UserAgent.PrintCalls | baresip/src/ua.c:2066-2104 | the early exit does not cut the listing short |
| LineNumbers.RunInv | baresip/src/call.c:601-614 | in every run line numbers are distinct and between 1 and 255 |
| LineNumbers.CurrentKeepsCalls | baresip/src/call.c:2453-2460 | making a call current changes only the order |
| LineNumbers.FailsExactlyAt255 | baresip/src/call.c:601-614 | there are never more than 255 calls, and no number is free exactly when there are 255 |
| LineNumbers.NewCallExactly | baresip/src/call.c:601-614 | a new call goes to the end of the list with the least number no call has, unless there are 255 calls |
| LineNumbers.RemoveUndoesNew | baresip/src/call.c:874-883 | removing a new call restores the list |
| LineNumbers.NumberIsReused | baresip/src/call.c:601-614 | after a call has gone, the next one gets its number unless a smaller one is free |
| LineNumbers.ListingIsExact | baresip/src/ua.c:2084-2099 | the listing shows every call exactly once by ascending line number |
| PeerConnection.OffersAreAnswered | barertc/src/peerconn.c:472-624 | in every run remote offers equal answers plus an open one, local offers equal remote descriptions taken for them plus an open one |
| PeerConnection.RefusedExactly | barertc/src/peerconn.c:472-624 | in every run a signalling call is refused if and only if its message cannot follow the exchange so far, and otherwise succeeds if and only if the description can be decoded or encoded |
| PeerConnection.FieldsExactly | barertc/src/peerconn.c:472-660 | in every run the decoded and encoded flags hold exactly after a call that decoded or encoded a description, and the timer runs exactly when a retry is scheduled and has not expired since |
| PeerConnection.IceWaitsForDescription | barertc/src/peerconn.c:627-660 | in every run the NAT session is updated exactly by the attempts after a decoded description and before the close; earlier attempts get a retry, ten times, and then an error |
| PeerConnection.AtMostTenRetries | barertc/src/peerconn.c:638-646 | as many retries are scheduled as there are attempts before a decoded description, but at most ten |
| PeerConnection.ReachableExchanges | barertc/src/peerconn.c:472-624 | the offer/answer exchanges that can happen are exactly the well-formed ones |

## Left out

- Sockets, RTCP, ICE, DTLS and SRTP: calls into them are events or results given as parameters.
- Jitter buffer: the order in which it hands out packets is arbitrary.
- Memory: allocation failure is modelled only where the result is visible (queue entries, traffic records, hash table), not for buffers that grow; reference counts are not.
- Video decoder, encoders, filters, audio devices: a decoder call records the buffer it gets, an encode call is a list of packets.
- Floating-point code: seconds, frame rates, audio levels and average bitrates.
- `h264_fu_hdr_encode`: the packetizer does not use it; it writes the start bit into the end bit too.
- Reordered and repeated packets: H264Units and H264Sources cover them; the other H.264 theorems are for packets that arrive in order, complete (H264Exact, H264Frames) or with losses (H264Loss and the modules built on it).
- H264Pieces.PiecesRebuilt: for NAL units that fit in the receiver's buffer; H264RoundTrip.NalRoundTrip has the exact limit for a NAL sent in one piece.
- H264Splice.SpliceExactly: for a receiver that has seen a key frame and arrivals that do not overflow its buffer between two closed access units; H264Loss.OnlyWholeNals covers the others in one direction.
- H264LossExact.PicturesExactly: under the same conditions.
- H264AccessUnits.OneAccessUnitExactly: under the same conditions.
- TrafficLog.Database.SaveTrafficRecords: one round without interference; TrafficLog.UndisturbedRound ties it to the machine, whose theorems cover every interference.
- TrafficLog.Database.Close: takes the last round of the thread as one step; interference with it is covered by TrafficLog.CloseLosesNothingOld.
- RtpTimestamp.AudioAgreesWithVideo: forward streams only, because the audio handler overwrites the last timestamp also on a step back; RtpTimestamp.AudioExactly covers the others.
- TonePauses.PausesExactly: for clock readings that plus the delay are not 0 modulo 2^64; TonePlayer.ZeroClockExample shows another one.
- CredentialCache.TableSize: up to 2^31 accounts, above which the shift of the source is undefined.
- Hash function and hexadecimal parsing of the credential database: a parameter, and a result per account.
- Command handlers and printing: a handler call is recorded and does not change the registry; printing succeeds.
- Timer queue of the event loop: timers expire at any time after they were started.
- Account parsing, configuration, modules, JSON status, the HTTP server and the Baidu client.
- `baresip-webrtc/src/peerconn.c`: a near copy of the modelled file, without the retry.
