# Protocols and buffers of the LVGL demo, in Dafny

This project models the stateful core of the LVGL demo application and proves what its
protocols and buffers are for: a photo that is reported as sent is on the other board byte for
byte, no sample of any recording overflows the audio filter, results come out of a byte stream
the same way however the reads cut it, and the queues between threads lose and reorder nothing.

`dafny verify dfyconfig.toml` checks the whole project.

## Parts

| part | modules |
|---|---|
| Image transfer between the two boards | `Bytes`, `Crc`, `Incremental`, `UartFrames`, `UartMachine`, `SpiStream`, `Bitmap`, `ImageReceiver`, `ImageSender`, `ImageTransfer`, `ImageProgress`, `ImageRounds` |
| Meeting recording and its WAV files | `DcBlocker`, `WavChunks`, `WavFile` |
| Live transcription | `TlsStream`, `WebSocketFrames`, `WebSocketReader`, `AsrBacklog`, `CStrings`, `Transcript`, `TranscriptLog`, `TranscriptLife`, `TranscriptRing` |
| Buffers between threads | `OmniCache`, `OmniOrder`, `DispatchRing` |
| Text | `Utf8`, `ChatText`, `CallState` |

Loops over buffers and objects with fields are methods and classes, each proved against a
function on values; the theorems are about those functions. The image transfer, the audio cache
and the life of the meeting page are state machines whose runs are arbitrary sequences of enabled steps; the loops of the
two cache threads are methods proved to take exactly the machine's steps.

**Image transfer.** The sender cuts a photo into 256-byte SPI frames, the receiver writes them at
their offsets and keeps a bitmap, and an END frame is answered with the bitmap over the UART.
The two channels may lose, repeat and reorder; a frame whose CRC fails counts as lost (the CRC
theorems say which damage is certain to be caught); disk writes may fall short. Hypotheses:

- a photo has at most 8192 frames (2 MiB), because the bitmap has 1024 bytes and frame indices
  are 16 bits wide;
- the link carries only frames of the current transfer, because the receiver echoes the session
  number without comparing it;
- no capture timeout strikes while the transfer runs.

A received photo that does not decode is deleted by the receiver itself
(app/lvgldemo/camera_page.c:1107-1110, 503-512): success at the sender means that the photo was
written byte for byte, and that the file exists unless it was deleted for that reason.

A receiver that has found the transfer complete stops reading the SPI link
(app/lvgldemo/camera_page.c:937, 1069), so it never answers again, and the ok answer is the only
one: if it is lost, or was never sent for want of memory, the photo is complete and the sender
still fails. `ImageProgress.LostAnswerIsFatal` shows it, and `ImageProgress.SuccessIsPossibleIff`
says in every reachable state whether the sender can still succeed.

**Two UART receivers.** The Python parser and the C byte machine agree on frames separated by
bytes without 0xAA, and more generally on gaps without a sync pair that do not end in an odd
number of 0xAA bytes. For such an odd gap they differ, whatever the frame holds: after 0xAA the
C machine does not accept a second 0xAA as a new sync byte, and it loses the frame. A lone sync
pair before a frame costs the C machine that frame too (`UartMachine.LoneSyncLosesTheFrame`).
`UartMachine.HeaderSeenIff` and `UartMachine.ReceiversAgreeIff` give the exact condition.

**Machine integers.** The board is a 32-bit ARM: `size_t` has 32 bits, `long` and `off_t` have 32
bits and a sign. `Bytes` states this once. A WAV chunk that claims about 4 GiB moves the file
position backwards, and the walk over the chunks can then go round for ever;
`WavChunks.EndlessIff` gives the exact condition.

**Audio filter.** C division truncates towards zero; `DcBlocker.TruncDiv` says so explicitly. The
invariant is that output minus input always lands between its old value and minus the previous
input, which bounds the output by 65535; that bound is reached.

**Text results.** Sentence results are newline-joined into 8190 bytes at most; what is kept is
exact at any length. A page starts one meeting, and leaving the page forgets the open sentence.
The transcription thread hands its results to the UI thread through the dispatch ring
(app/lvgldemo/meeting_page.c:607-640) and appends the open sentence by itself when the
transcription ends (719-728); each update and each append is one step of the model. Four things
follow, all of them runs of it:

- A result that still waits in the ring at the last append is missing. When a meeting is stopped
  this is to be expected, because the UI thread joins the WAV segments meanwhile and does not
  drain the ring. `TranscriptRing.LastVersionWaits` is such a run, and
  `TranscriptRing.QuietMeetingTextIff` says exactly when the text is the one that everything
  handed out would make: of every sentence something has been shown, and the last text shown is
  that of its last version. A version lost to a full ring does no harm if a later one of its
  sentence is shown (`TranscriptRing.LostVersionIsHarmless`).
- A thread outlives its page, and one of an earlier meeting may append the open sentence of this
  one (`TranscriptRing.EarlierThreadAppends`). `TranscriptLog.EachOnceIff` says, for whatever
  comes between the results, when each sentence is in the text exactly once, and
  `TranscriptLife.MeetingTextIff` says it of the text itself.
- A result of an earlier meeting that is shown on the page created next, before that page's
  meeting begins, opens a sentence that starting the meeting does not forget (1419, 1722-1735).
  `TranscriptRing.LateResultShows` is such a life of the page.
- Showing the minutes forgets the line on the screen but not the open sentence, so the next
  version of that sentence does not replace it.

Sentences that hold newlines cannot be told apart in the text, so equivalences about the text
itself are stated for texts without them; those about which results are appended are not.

**Audio cache.** Receiver and consumer seek on the same descriptor
(app/lvgldemo/voice_assistant.c:842-846, 954-966). The receiver holds a mutex from its seek to its
write; the consumer takes that mutex for its look at the positions only. If it seeks in between,
the packet lands where the consumer is about to read. `OmniOrder.MissIff` says exactly when,
`OmniOrder.ClosedInOrderIff` that playback is in order exactly when this does not happen,
`OmniOrder.SeekBetween` is a run in which it does, and by `OmniOrder.LastMissHangs` closing never
returns when it happens to the last write.

Where the code and its comments differ, the code is modelled:

- the fade-in is 1600 samples (100 ms), not 160 (app/lvgldemo/meeting_page.c:334-338);
- the dispatch ring has 32 slots but holds 31 items (app/lvgldemo/lvgl_dispatch.c:16-19, 47);
- a drain of results stops on a return value of 0, which the comment reads as a close frame but
  an empty text frame returns too (app/lvgldemo/meeting_asr.c:565);
- the audio cache's comment has both file positions under the mutex, but the consumer seeks and
  reads outside it (app/lvgldemo/voice_assistant.c:842-846).

## Model

| member | source | states |
|---|---|---|
| `Crc.Crc16Ccitt` | app/lvgldemo/camera_page.c:181-194 | the word left by the byte loop is the 16-bit shift register of polynomial 0x1021, started at all ones and fed the message bit by bit, high bit first |
| `Crc.ShiftByte` | app/lvgldemo/camera_page.c:185-191 | eight rounds of the inner loop are eight register shifts with feedback |
| `Crc.ByteStep` | app/lvgldemo/camera_page.c:184-191 | mixing a byte into the high half and shifting eight times equals feeding its eight bits one at a time |
| `Crc.RunAppend` | app/lvgldemo/camera_page.c:181-194 | the CRC of a concatenation continues from the register left by the first part |
| `Crc.TestIsIntact` | app/lvgldemo/camera_page.c:983-988 | comparing calculated and received words accepts exactly the frames whose last two bytes are the CRC of the rest |
| `Crc.SealedBytes` | app/lvgldemo/camera_page.c:237-239 | appending the two halves of the calculated word, high half first, makes the body intact |
| `Crc.SealIsUnique` | app/lvgldemo/camera_page.c:237-239 | no other two bytes do |
| `Crc.IntactIsResidueZero` | app/lvgldemo/camera_hub_2n.py:79-91 | a frame is accepted exactly when running the register over all of it, CRC included, ends at zero |
| `Crc.AcceptsIffPatternVanishes` | app/lvgldemo/camera_page.c:181-194 | whether a damaged copy of an intact frame is accepted depends on the error pattern alone, by linearity over xor |
| `Crc.BurstIsDetected` | app/lvgldemo/camera_page.c:181-194 | any non-zero damage confined to 16 consecutive bits (so to any two adjacent bytes) is rejected, for every length |
| `Crc.OddErrorIsDetected` | app/lvgldemo/camera_page.c:181-194 | any odd number of flipped bits is rejected |
| `Crc.CheckValue` | app/lvgldemo/camera_page.c:181-194 | the check value published for this CRC: the digits 1 to 9 give 0x29B1 |
| `Incremental.ParseSplit` | app/lvgldemo/camera_hub_2n.py:182-192 | parsing a prefix and then its leftover plus the rest is parsing the whole, for any parser whose decisions need no later bytes |
| `Incremental.ChunkingIsInvisible` | app/lvgldemo/camera_hub_2n.py:182-192 | with the leftover carried over, every way of cutting a stream into reads gives the same items and leftover as one call |
| `Incremental.PrefixOfFramed` | app/lvgldemo/camera_page.c:930-1129 | any prefix of a stream of whole frames yields exactly the frames it completes and leaves a proper prefix of the next |
| `Incremental.WholeFramed` | app/lvgldemo/camera_hub_2n.py:94-124 | a stream of whole frames parses to exactly those frames with empty leftover |
| `UartFrames.ParseFrames` | app/lvgldemo/camera_hub_2n.py:94-124 | the index loop returns the items and the leftover of stepwise parsing, on every buffer, noise and bad CRCs included |
| `UartFrames.CheckCrc` | app/lvgldemo/camera_hub_2n.py:114-116 | true exactly for intact bodies |
| `UartFrames.UartStepIsSteady` | app/lvgldemo/camera_hub_2n.py:94-124 | every decision of the parser makes progress and stays the same when more bytes follow |
| `UartFrames.ReadsAreInvisible` | app/lvgldemo/camera_hub_2n.py:182-192 | the reader thread's frames and leftover depend on the byte stream only, not on how it was read |
| `UartFrames.LeftoverIsSmall` | app/lvgldemo/camera_hub_2n.py:94-124 | the carried leftover is always shorter than the largest frame |
| `UartFrames.SkipsLittle` | app/lvgldemo/camera_hub_2n.py:94-124 | what is skipped: one byte where there is no sync pair, two where the length is not between 2 and 1078 or the CRC does not match; a frame of such a length that is not complete yet is waited for |
| `UartFrames.LoneSyncIsHarmless` | app/lvgldemo/camera_hub_2n.py:105-107 | a lone sync pair before a written frame costs nothing: the frame is handed out, because its first two bytes are no possible length |
| `UartFrames.EncodedLayout` | app/lvgldemo/camera_hub_2n.py:86-91 | where sync, length, command, sequence, payload and CRC of a written frame are |
| `UartFrames.WrittenFramesParseBack` | app/lvgldemo/camera_hub_2n.py:86-124 | any concatenation of written frames parses back to exactly those frames with empty leftover |
| `UartFrames.SendFrame` | app/lvgldemo/camera_page.c:221-239 | the C writer puts the same bytes into its buffer as the Python writer |
| `UartFrames.BurstIsDropped` | app/lvgldemo/camera_hub_2n.py:113-119 | a frame hit by a burst of at most 16 bits behind its length field is not handed out; the parser steps over its sync pair |
| `UartMachine.Receiver.constructor` | app/lvgldemo/camera_page.c:1137-1146 | the receiver starts looking for the first sync byte |
| `UartMachine.Receiver.OnByte` | app/lvgldemo/camera_page.c:1157-1218 | each pass through the switch is one step of the machine on values, and neither fixed buffer is ever indexed past its end, on any input |
| `UartMachine.Receiver.StorePayload` | app/lvgldemo/camera_page.c:1189-1194 | one more payload byte is stored, and the state moves on when the announced length is complete |
| `UartMachine.Receiver.FinishFrame` | app/lvgldemo/camera_page.c:1199-1218 | a frame is handed out exactly when length, header bytes and payload match the received CRC |
| `UartMachine.RunFrame` | app/lvgldemo/camera_page.c:1157-1218 | a written frame takes the machine from idle to idle and hands out that frame |
| `UartMachine.HeaderSeenIff` | app/lvgldemo/camera_page.c:1158-1167 | after a gap without a sync pair the machine finds a header exactly when the gap does not end in an odd number of 0xAA bytes |
| `UartMachine.ReceiversAgreeIff` | app/lvgldemo/camera_page.c:1158-1167 | on a gap without a sync pair and any frame the Python parser hands out the frame, and the C machine hands out the same exactly under that condition; otherwise it loses the frame |
| `UartMachine.OneAALosesTheFrame` | app/lvgldemo/camera_page.c:1164-1167 | a single 0xAA before any frame costs the C machine that frame, while the Python parser hands it out |
| `UartMachine.HeaderIsTakenIff` | app/lvgldemo/camera_page.c:1168-1180 | after sync and length the machine reads a body of 2 to 1078 bytes and is back at the start for every other length |
| `UartMachine.BodyIsJudged` | app/lvgldemo/camera_page.c:1181-1218 | a body of the announced length and two bytes more is handed out exactly when it is intact together with its length: command, sequence, payload, and the CRC last |
| `UartMachine.LoneSyncLosesTheFrame` | app/lvgldemo/camera_page.c:1168-1180 | a lone sync pair before any written frame costs the C machine that frame, while the Python parser hands it out |
| `UartMachine.GapWithoutAA` | app/lvgldemo/camera_page.c:1158-1167 | every gap without the byte 0xAA meets the condition |
| `UartMachine.MachineOnStream` | app/lvgldemo/camera_page.c:1134-1219 | on frames separated by such gaps the machine hands out all frames in order |
| `UartMachine.ReceiversAgree` | app/lvgldemo/camera_hub_2n.py:94-124 | on every such stream the C machine and the Python parser emit the same frames |
| `SpiStream.SpiReceiver.constructor` | app/lvgldemo/camera_page.c:931-932 | the stream buffer starts empty |
| `SpiStream.SpiReceiver.Pass` | app/lvgldemo/camera_page.c:945-1129 | one read and parse pass handles what stepwise parsing hands out and keeps its leftover at the front of the buffer |
| `SpiStream.SpiReceiver.ParseStream` | app/lvgldemo/camera_page.c:955-998 | the parse loop handles the items of stepwise parsing and stops at its leftover |
| `SpiStream.SpiStepIsSteady` | app/lvgldemo/camera_page.c:955-998 | a decision on buffered SPI bytes never changes when more arrive |
| `SpiStream.PackedLayout` | app/lvgldemo/camera_hub_2n.py:158-163 | every field of a packed frame is read back from where it was put, and the frame is intact |
| `SpiStream.NoiseIsSkipped` | app/lvgldemo/camera_page.c:955-966 | bytes among which no magic starts do not hide the packed frame behind them |
| `SpiStream.DamagedFrameIsAlone` | app/lvgldemo/camera_page.c:981-998 | a frame whose CRC does not match is dropped, and the packed frame behind it is handed out |
| `SpiStream.ReadsDeliverAllFrames` | app/lvgldemo/camera_page.c:930-1129 | on packed frames in arbitrary reads exactly those frames are handled in order, and after every pass less than one 277-byte frame is left unparsed, so there is room to read |
| `SpiStream.FullBufferStallsIff` | app/lvgldemo/camera_page.c:945-979 | on arbitrary input a full buffer can stay unparsed in one case only: a header that claims more payload than the buffer can hold |
| `Bitmap.SetSetsOne` | app/lvgldemo/camera_page.c:1012-1014 | setting a frame's bit sets that bit and leaves every other bit as it was |
| `ImageReceiver.ImageReceiver.constructor` | app/lvgldemo/camera_page.c:1287-1291 | a new transfer starts with the announced size, nothing received and an empty bitmap |
| `ImageReceiver.WriteAt` | app/lvgldemo/camera_page.c:1003-1005 | a write at an offset changes exactly those bytes and extends the file if needed |
| `ImageReceiver.OneFrameCounts` | app/lvgldemo/camera_page.c:1001-1028 | a whole write of frame i moves the end and the frame count up to it and sets its bit, a short one changes the file only, and one that comes when no file is open changes nothing |
| `ImageReceiver.EndAnswers` | app/lvgldemo/camera_page.c:1030-1074 | the answer to END holds the session, how far the file goes, 1 exactly when every byte has come and every bit is set, the frame count and so many bits; a complete transfer closes the file and stops receiving, any other stays open |
| `ImageReceiver.ImageReceiver.HandleData` | app/lvgldemo/camera_page.c:1001-1028 | the effect of one BIG_DATA frame on file, offset, frame count and bitmap, short writes included |
| `ImageReceiver.ImageReceiver.HandleEnd` | app/lvgldemo/camera_page.c:1030-1074 | the bitmap answer to END and its ok flag; an ok answer clears the receive flag and closes the file |
| `ImageSender.ReadAck` | app/lvgldemo/camera_hub_2n.py:193-217 | the bit loop decodes an answer into session, offset, ok and the offsets of the clear bits, or no list if the bitmap is absent or truncated |
| `ImageSender.AnswerFields` | app/lvgldemo/camera_hub_2n.py:193-217 | where session, offset, ok flag, frame count and bitmap are in an answer; there is a list exactly when a count other than 0 and a whole bitmap are there, and it has the offset 256 i exactly when bit i is clear |
| `ImageSender.MissingContents` | app/lvgldemo/camera_hub_2n.py:206-212 | the list holds exactly the frame offsets whose bits are clear |
| `ImageSender.MissingAscends` | app/lvgldemo/camera_hub_2n.py:206-212 | the offsets are in ascending order, each once |
| `ImageSender.AnswerRoundTrips` | app/lvgldemo/camera_page.c:1043-1060 | what the sender decodes from an answer is what the receiver put into it |
| `ImageSender.SendFramesByOffsets` | app/lvgldemo/camera_hub_2n.py:246-261 | one data frame for each listed offset, in order, then END |
| `ImageSender.SpiSendImage` | app/lvgldemo/camera_hub_2n.py:264-315 | success exactly when one of six replies is ok or lists nothing, the first such reply ending the transfer; what is sent is every frame once and END, then for each reply before that which lists offsets the frames at these offsets, in order, and END, and for a wait that timed out nothing |
| `ImageTransfer.DeliverySetsBitIff` | app/lvgldemo/camera_page.c:1006-1014 | a frame's bit becomes set by its own complete write and by nothing else |
| `ImageTransfer.AnswerIsHonest` | app/lvgldemo/camera_page.c:1031-1060 | an answer lists exactly real frame offsets, every missing one among them, and is ok exactly when none is missing |
| `ImageTransfer.StepInv` | app/lvgldemo/camera_hub_2n.py:264-315 | every step of sender, receiver and channels keeps the protocol invariant and never adds a missing frame |
| `ImageTransfer.SuccessMeansDelivered` | app/lvgldemo/camera_hub_2n.py:264-315 | in every run, success at the sender means that the receiver has written the photo byte for byte and that its file is the photo, then and ever after, exactly unless the receiver deletes it as undecodable |
| `ImageTransfer.NotOkAnswersListSomething` | app/lvgldemo/camera_hub_2n.py:304-306 | the branch for a not-ok answer without missing frames is never taken on an answer of this transfer |
| `ImageTransfer.MissingOnlyShrinks` | app/lvgldemo/camera_page.c:1009-1014 | over any stretch of any run the set of missing frames only shrinks |
| `ImageTransfer.ResentFramesWereReported` | app/lvgldemo/camera_hub_2n.py:246-313 | every frame sent after the first round is a real frame that some answer of the receiver listed as missing |
| `ImageTransfer.MessagesFitTheirFrames` | app/lvgldemo/camera_page.c:1043-1060 | every frame on the SPI link can be packed and every answer, the largest bitmap included, fits the UART frame limit |
| `ImageTransfer.BitsRecordDeliveries` | app/lvgldemo/camera_page.c:1001-1028 | a bit is set after a run exactly when the run delivered and completely wrote that frame |
| `ImageTransfer.AnswersOkIffAllDelivered` | app/lvgldemo/camera_page.c:1030-1053 | the receiver would answer ok exactly when every frame has been delivered and written at least once |
| `ImageTransfer.AnswerAfterDeliveryFinishes` | app/lvgldemo/camera_hub_2n.py:294-299 | once every frame has been delivered, dequeuing the next answer finishes the sender with success in whatever state it arrives |
| `ImageRounds.RunsAreTheLoop` | app/lvgldemo/camera_hub_2n.py:264-315 | every finished run of the protocol succeeds exactly when one of its six waits returned an ok answer or an empty list, and has sent the first round and, for each wait before that, the frames its answer listed and END, or nothing if it timed out |
| `ImageRounds.TimeoutSendsNothing` | app/lvgldemo/camera_hub_2n.py:300-303 | after a timeout nothing can be sent: once the answers that have come are dropped the next wait follows, or after the sixth the failure |
| `ImageRounds.OnlyAnswersOpenRounds` | app/lvgldemo/camera_hub_2n.py:308-313 | only an answer of this session that is not ok and lists offsets makes the sender send again, and then exactly the frames at these offsets and END |
| `ImageProgress.OneCleanRoundSuffices` | app/lvgldemo/camera_hub_2n.py:290-313 | whenever the sender, before its last round, takes a not-ok answer while the receiver still reads, the round in which each listed frame and END is sent, read and written once and the answer comes back ends in success |
| `ImageProgress.CleanFirstRoundSuffices` | app/lvgldemo/camera_hub_2n.py:264-299 | the loss-free first round ends in success |
| `ImageProgress.CompleteReceiverIsSilent` | app/lvgldemo/camera_page.c:937-940 | once complete, and with no END left in its buffer, the receiver puts no further answer on the UART, whatever is resent |
| `ImageProgress.LostStaysLost` | app/lvgldemo/camera_hub_2n.py:290-315 | a sender that can no longer come to wait, or whose receiver will not answer and has not answered ok, never reports success |
| `ImageProgress.SuccessIsPossibleIff` | app/lvgldemo/camera_page.c:937-940 | in every reachable state the sender can still succeed exactly when it has, or it can still come to wait and an ok answer has been sent or can still be |
| `ImageProgress.LostAnswerIsFatal` | app/lvgldemo/camera_page.c:1041-1069 | if END of a loss-free first round is handled but its answer not sent, the receiver has the photo and no continuation lets the sender succeed |
| `DcBlocker.OffsetIsTrapped` | app/lvgldemo/meeting_page.c:350-354 | output minus input lands between its old value and minus the previous input |
| `DcBlocker.AllStatesAreBounded` | app/lvgldemo/meeting_page.c:346-354 | for every sample stream of any length the filter output stays within 65535 |
| `DcBlocker.OffsetDiesOut` | app/lvgldemo/meeting_page.c:350-354 | while the input stands still the output shrinks by at least one each sample until it is 0 and then stays 0 |
| `DcBlocker.OffsetIsRemoved` | app/lvgldemo/meeting_page.c:334-354 | from every reachable state any constant offset is gone after 65535 samples |
| `DcBlocker.JumpIsFull` | app/lvgldemo/meeting_page.c:350-354 | a jump after a standstill comes out at its full height, so the bound 65535 is reached |
| `DcBlocker.FilterSample` | app/lvgldemo/meeting_page.c:350-363 | one sample computed in int32 without overflow in any intermediate result equals blocker, fade-in and clipping on integers |
| `DcBlocker.FilterBlock` | app/lvgldemo/meeting_page.c:346-365 | filtering a read buffer in place is filtering its bytes as 16-bit samples from the carried state; the bytes behind the block stay |
| `DcBlocker.FilteredAppend` | app/lvgldemo/meeting_page.c:345-366 | cutting the stream at an even position leaves no trace in output or state |
| `DcBlocker.TruncDivIs` | app/lvgldemo/meeting_page.c:352-360 | the division is that of C: the quotient is the nearest towards zero |
| `DcBlocker.SampleIs` | app/lvgldemo/meeting_page.c:347-349 | two bytes are a sample, low byte first, in two's complement |
| `DcBlocker.SegmentSamples` | app/lvgldemo/meeting_page.c:346-365 | of every segment sample k is written as the unfaded output times k * 32767 / 1600 over 32767, truncated, for k below 1600, and as the unfaded output from there on, both clipped to 16 bits; the unfaded output is the difference of the inputs plus 32631/32768 of the output before; an odd last byte stays as it is |
| `DcBlocker.FadedIn` | app/lvgldemo/meeting_page.c:357-361 | the first sample written is 0, and no sample is louder than the unfaded one |
| `Bytes.WrapsBy` | app/lvgldemo/meeting_page.c:227 | 32-bit sums, signed and unsigned, are right up to a multiple of 2^32 |
| `WavChunks.NextChunk` | app/lvgldemo/meeting_page.c:227 | the next position is even and wraps like a 32-bit signed integer |
| `WavChunks.ParseHeader` | app/lvgldemo/meeting_page.c:204-231 | whenever the chunk walk ends it returns the format buffer and the first data chunk within 4096 bytes, or the source's error code; a format chunk cut short by the end of the file changes only the front of a format read before |
| `WavChunks.EndlessIff` | app/lvgldemo/meeting_page.c:215-228 | the walk never ends exactly when it comes back to a chunk it has been at, which shows within as many steps as its limit has bytes |
| `WavChunks.HeaderForeverIff` | app/lvgldemo/meeting_page.c:204-231 | the header parse has no result exactly when its loop never ends |
| `WavChunks.ChunkMayRepeat` | app/lvgldemo/meeting_page.c:227 | a chunk that claims 0xFFFFFFF8 bytes keeps the walk where it is for ever |
| `WavChunks.SmallChunksEnd` | app/lvgldemo/meeting_page.c:215-228 | with chunk sizes safely below 2 GiB the walk ends |
| `WavChunks.FindData` | app/lvgldemo/meeting_asr.c:508-540 | whenever the uploader's walk ends it returns the first data chunk within 65536 bytes |
| `WavChunks.SearchUnendingIff` | app/lvgldemo/meeting_asr.c:521-536 | the search has no result exactly when its loop never ends |
| `WavChunks.ReadersAgree` | app/lvgldemo/meeting_asr.c:508-540 | whenever the recorder's header parse succeeds, the uploader finds the same data offset and size |
| `WavChunks.WellMade` | app/lvgldemo/meeting_asr.c:508-540 | in a file of whole chunks, the last being the data, the uploader finds that chunk if it starts below 65536; without a format chunk before it, or from 4096 on, the recorder finds nothing |
| `WavChunks.WellMadeFormat` | app/lvgldemo/meeting_page.c:204-231 | otherwise the recorder returns the data chunk and the 16 format bytes of the last format chunk before it |
| `WavFile.HeaderReadsBack` | app/lvgldemo/meeting_page.c:234-246 | parsing a file that starts with a built header gives back the format, offset 44 and the size |
| `WavFile.HeaderBytes` | app/lvgldemo/meeting_page.c:234-246 | the tags, sizes and format bytes of a built header and where they are |
| `WavFile.CopySegment` | app/lvgldemo/meeting_page.c:339-368 | a segment copied in 4096-byte blocks is its data filtered as one whole sequence, with fresh filter state, less what short writes of blocks leave out |
| `WavFile.BlocksAre` | app/lvgldemo/meeting_page.c:346-366 | the blocks are the consecutive pieces of 4096 bytes, the last one what remains |
| `WavFile.SegmentsJoined` | app/lvgldemo/meeting_page.c:340-369 | without short writes the body is, for segments that consist of anything up to the data offset and then data, the filtered data of one after the other |
| `WavFile.OneSegment` | app/lvgldemo/meeting_page.c:253-403 | a segment that is a built header and its data joins with success to that header and the filtered data |
| `WavFile.LocateAll` | app/lvgldemo/meeting_page.c:281-315 | the data offset of every segment, with the one retry, and the declared total modulo 2^32 |
| `WavFile.RetryCounts` | app/lvgldemo/meeting_page.c:292-312 | a segment whose header does not parse is taken as it is found at the second try; one that cannot be opened at first is skipped |
| `WavFile.CopyAll` | app/lvgldemo/meeting_page.c:340-369 | the body is what the writes take of the filtered blocks of every located segment, in segment order |
| `WavFile.VerifyHeader` | app/lvgldemo/meeting_page.c:382-399 | the read-back check accepts every header the joiner has written |
| `WavFile.SizeTestIff` | app/lvgldemo/meeting_page.c:371-380 | the size test on a 32-bit `long` accepts exactly the right size, and for a file of 2 GiB or more exactly one total |
| `WavFile.Concat` | app/lvgldemo/meeting_page.c:253-403 | whenever the joiner returns, whatever the writes take: success exactly when seg0 parses, some data is declared, the header is written whole and the size test passes; the file is then a 44-byte header and what was taken of the filtered data in segment order, of exactly the declared size if the file is below 2 GiB, and reads back as seg0's format, 44 and that size |
| `WavFile.ExactSegmentsJoin` | app/lvgldemo/meeting_page.c:371-380 | segments whose data chunks run to the end of their files, together below 2 GiB, join exactly when there is data and no write falls short; from 2 GiB on exactly when what the writes took agrees with the declared size modulo 2^32, or is too large to measure and that size is 0xFFFFFFD3 |
| `WavFile.Recording.constructor` | app/lvgldemo/meeting_page.c:1165 | a recording starts with one segment, not paused |
| `WavFile.Recording.PauseButton` | app/lvgldemo/meeting_page.c:429-464 | pausing ends the segment and resuming starts the next, and the segment counter never passes 64, so the table of data offsets is never overrun |
| `WebSocketFrames.FillHeader` | app/lvgldemo/meeting_asr.c:317-337 | the header bytes are FIN, opcode and the masked length in its shortest form |
| `WebSocketFrames.BuildHeader` | app/lvgldemo/meeting_asr.c:314-344 | the whole header ends with the masking key |
| `WebSocketFrames.MaskChunk` | app/lvgldemo/meeting_asr.c:349-355 | a 1024-byte chunk is masked with the key at its position in the whole payload |
| `WebSocketFrames.SendFrame` | app/lvgldemo/meeting_asr.c:311-403 | a successful send writes exactly one client frame, a failed one a proper prefix of it, and without a failing write it succeeds |
| `WebSocketFrames.HeaderOctets` | app/lvgldemo/meeting_asr.c:317-337 | the octets of the header: 128 plus the opcode, then the length in one, two or eight bytes, high byte first, with the mask bit |
| `WebSocketFrames.SendText` | app/lvgldemo/meeting_asr.c:311-360 | what is written decodes by RFC 6455 to one final masked text frame, opcode 1, of that payload |
| `WebSocketFrames.SendBinary` | app/lvgldemo/meeting_asr.c:363-411 | what is written decodes by RFC 6455 to one final masked binary frame, opcode 2, of that payload |
| `WebSocketFrames.ClientFrameDecodes` | app/lvgldemo/meeting_asr.c:311-403 | for every payload under 2^32 bytes the frame decodes by sections 5.2 and 5.3 of RFC 6455 to that payload, final, masked, with minimal length encoding |
| `WebSocketFrames.HeaderReads` | app/lvgldemo/meeting_asr.c:452-472 | reading a header gives back the opcode and the payload length it was written with |
| `WebSocketReader.SkipPayload` | app/lvgldemo/meeting_asr.c:417-431 | success consumes exactly the payload; it fails after more than 2000 idle reads in a row, and otherwise only with the stream or the transport |
| `WebSocketReader.ReadExact` | app/lvgldemo/meeting_asr.c:436-450 | success fills the buffer with exactly the next bytes, whatever the short reads; it fails after more than 6000 idle reads in a row, and otherwise only with the stream or the transport |
| `WebSocketReader.FoldLength` | app/lvgldemo/meeting_asr.c:468-472 | the shifted 64-bit length is its value modulo 2^32 |
| `WebSocketReader.ReadHeader` | app/lvgldemo/meeting_asr.c:454-472 | opcode and payload length are those of the header at the front of the stream, which is consumed |
| `WebSocketReader.ReadText` | app/lvgldemo/meeting_asr.c:481-495 | a text payload is kept whole, or cut to the buffer with the rest skipped, and zero-terminated |
| `WebSocketReader.RecvText` | app/lvgldemo/meeting_asr.c:452-496 | a call returns the code and text of the frame at the front of the stream and consumes that frame, unless the transport fails |
| `WebSocketReader.OneCallOneFrame` | app/lvgldemo/meeting_asr.c:452-496 | on every server frame exactly its bytes are consumed; a text, opcode 1, is handed out, cut to the buffer if it is too long, a close, opcode 8, gives 0 and every other frame -2 |
| `WebSocketReader.DrainResults` | app/lvgldemo/meeting_asr.c:548-587 | only texts already in the stream are handed out, in order, and over a calm connection all of them up to the last poll |
| `WebSocketReader.FramesAreDelivered` | app/lvgldemo/meeting_asr.c:548-587 | on whole server frames a drain hands out the text of each text frame up to the first close or empty text frame, so the callbacks depend on the byte stream only |
| `WebSocketReader.DrainsCompose` | app/lvgldemo/meeting_asr.c:548-587 | two drains hand out what one drain of as many polls would |
| `AsrBacklog.Backlog.Push` | app/lvgldemo/meeting_asr.c:720-742 | a block of 1 to 3200 bytes is appended and, past 100 blocks, the oldest dropped; head is null exactly when tail is |
| `AsrBacklog.Backlog.Count` | app/lvgldemo/meeting_asr.c:735-736 | the walk from the head counts the blocks |
| `AsrBacklog.Backlog.Free` | app/lvgldemo/meeting_asr.c:744-751 | the list is emptied |
| `AsrBacklog.Backlog.SendFirst` | app/lvgldemo/meeting_asr.c:764-772 | a sent block is unlinked; a failed send frees the queue and clears both ends |
| `AsrBacklog.Backlog.CatchUp` | app/lvgldemo/meeting_asr.c:760-787 | catching up sends the queue and everything read meanwhile in order, reads once for every two sends, drops nothing, takes fewer than 2n sends for n queued blocks, and fails exactly when a send fails |
| `AsrBacklog.PushKeepsNewest` | app/lvgldemo/meeting_asr.c:735-741 | pushing onto the newest 100 blocks gives the newest 100 blocks |
| `AsrBacklog.ConnectWait` | app/lvgldemo/meeting_asr.c:791-851 | for at most 120 rounds, while the connection is being made and nobody stops, each round that is not paused reads once; the queue then holds the newest 100 of the blocks read; whether there is a connection follows from the flags |
| `AsrBacklog.SendLive` | app/lvgldemo/meeting_asr.c:909-955 | each round that is not paused reads once, and every block read is sent, in order; the loop ends with the stop flag, the rounds, 51 reads in a row that bring nothing, or a failed send, and with nothing else |
| `AsrBacklog.OnlyAPrefixIsLost` | app/lvgldemo/meeting_asr.c:708-742 | what is not sent is a prefix of the blocks read while waiting, at most 20 of them |
| `AsrBacklog.TranscribeStream` | app/lvgldemo/meeting_asr.c:1344-1449 | across waiting, catch-up and live sending, the blocks sent are all blocks read minus that prefix, once and in read order; a failure leaves a prefix of them; with success the live phase has not ended before it had to, and the return value follows from connection, handshake and sends |
| `AsrBacklog.EverythingIsHeard` | app/lvgldemo/meeting_asr.c:919-948 | if nobody stops, the rounds suffice and of any 51 reads in a row one brings something, everything the recorder has is read |
| `AsrBacklog.FeedIsHeard` | app/lvgldemo/meeting_asr.c:933-943 | a feed of blocks of 1 to 3200 bytes is read block by block |
| `CStrings.Strncat` | app/lvgldemo/meeting_page.c:723-726 | at most n bytes and a terminator are appended inside the buffer |
| `Transcript.Buffers.AppendCurrent` | app/lvgldemo/meeting_page.c:1630-1639 | the open sentence is appended behind a newline as far as 8190 bytes allow; the subtraction for the room left does not wrap and nothing is written past the buffer |
| `Transcript.Buffers.OnResult` | app/lvgldemo/meeting_page.c:1587-1646 | while a page is there, one result continues or finishes the open sentence, by sentence id or else by length |
| `Transcript.ResultReplacesOrEnds` | app/lvgldemo/meeting_page.c:1607-1646 | a result with the id of the open sentence, or without ids one that is not shorter, replaces it; any other first appends it behind a newline, up to 8190 bytes; 511 bytes of the text are kept |
| `Transcript.Buffers.Finish` | app/lvgldemo/meeting_page.c:719-728 | the last sentence is appended when transcription ends, within 8190 bytes |
| `Transcript.Buffers.Begin` | app/lvgldemo/meeting_page.c:1418-1420 | starting a meeting empties the text and keeps the open sentence |
| `Transcript.Buffers.CreatePage` | app/lvgldemo/meeting_page.c:1315 | a created page shows results again; the buffers are as they were |
| `Transcript.Buffers.Cleanup` | app/lvgldemo/meeting_page.c:1676-1688 | leaving the page forgets the open sentence, its id and its line, and results are no longer shown |
| `Transcript.Buffers.ShowSummary` | app/lvgldemo/meeting_page.c:550-553 | showing the minutes forgets the line on the screen and keeps the open sentence |
| `Transcript.StateAfter` | app/lvgldemo/meeting_page.c:1607-1646 | after any run of results in a meeting the text is the join of the finished sentences' last versions, behind what an earlier meeting left open, and the open sentence is the last result |
| `Transcript.FinalTextIsLastVersions` | app/lvgldemo/meeting_page.c:719-728 | for every run of results the final text is the newline-join of the last versions, cut at 8190 bytes, behind a sentence left open by an earlier meeting unless the first result continues it |
| `Transcript.OnlyThisMeetingIff` | app/lvgldemo/meeting_page.c:1607-1639 | below capacity the text holds this meeting's sentences alone exactly when no sentence was open at its start or the first result continues it |
| `Transcript.EachSentenceOnce` | app/lvgldemo/meeting_page.c:1607-1639 | of sentences told apart by their ids each is kept exactly once, in order, in its last version |
| `Transcript.FinalTextIsSentences` | app/lvgldemo/meeting_page.c:719-728 | in a meeting that starts with no sentence open the final text is the newline-join of every sentence's last version, whole when it fits |
| `TranscriptLog.TextIsTheLog` | app/lvgldemo/meeting_page.c:719-728 | whatever comes between the results (early appends, the minutes, the page being left), the text is the join, cut at 8190 bytes, of the results appended, each as often as it is appended |
| `TranscriptLog.EachOnceIff` | app/lvgldemo/meeting_page.c:1607-1639 | the last version of every sentence is appended exactly once and nothing else is, exactly when no early append meets an open result and no line goes from the screen between two versions of a sentence; a last version with which the page is left must have been appended once before |
| `TranscriptLog.JoinTakesApart` | app/lvgldemo/meeting_page.c:1630-1639 | texts without newlines can be read back from their join |
| `TranscriptLog.TextIsLastVersionsIff` | app/lvgldemo/meeting_page.c:719-728 | below capacity and without newlines, while the page stays, the text is the join of the last versions exactly under that condition |
| `TranscriptLife.OpenSentence` | app/lvgldemo/meeting_page.c:1587-1646 | in every life of the page a sentence is open exactly while the page is there and has been shown a result since it was created |
| `TranscriptLife.AfterIsSound` | app/lvgldemo/meeting_page.c:607-640 | in every life of the page the open sentence fits its buffer and has an id, without one the id is forgotten, and what waits in the ring has text and an id |
| `TranscriptLife.RingTakes` | app/lvgldemo/meeting_page.c:628-638 | a result handed out with memory waits in the ring unless 31 wait already, as many as the dispatch ring takes |
| `TranscriptLife.MeetingTextIsTheLog` | app/lvgldemo/meeting_page.c:719-728 | in every life of the page and whatever happens during the meeting, the meeting's text is the join of the log, and the log holds each sentence's last version once and nothing else exactly under the condition on appends and screen |
| `TranscriptLife.MeetingResults` | app/lvgldemo/meeting_page.c:1407-1420 | the results in a meeting's text are those shown during it, behind a sentence left open, and there is such a sentence exactly when a result came between the creation of the page and the start of the meeting |
| `TranscriptLife.MeetingTextIff` | app/lvgldemo/meeting_page.c:719-728 | below capacity and without newlines, on a page that is not left, the meeting's text is the join of the last versions shown exactly when no thread appends while a sentence is open and the minutes do not come between two versions of one |
| `TranscriptRing.RingIsFifo` | app/lvgldemo/meeting_page.c:628-638 | the results on the screen are those handed out and not lost, in order, and the others of them wait in the ring, in order |
| `TranscriptRing.HandedIsAll` | app/lvgldemo/meeting_page.c:628-638 | every result is accounted for: waiting at the start or handed out since, and then lost, waiting or shown |
| `TranscriptRing.ScreenIsAllIff` | app/lvgldemo/meeting_page.c:1607-1639 | the last versions on the screen are those of all that was handed out exactly when of every sentence something has been shown and the last text shown is that of its last version |
| `TranscriptRing.QuietMeetingText` | app/lvgldemo/meeting_page.c:719-728 | in every undisturbed meeting the text is the join of the last versions of what is on the screen at the last append, behind the sentence left open, cut at 8190 bytes |
| `TranscriptRing.QuietMeetingTextIff` | app/lvgldemo/meeting_page.c:719-728 | below capacity and without newlines, it is the join over everything handed out exactly when every sentence is covered in that sense |
| `TranscriptRing.LastVersionWaits` | app/lvgldemo/meeting_page.c:719-728 | a last version that still waits in the ring at the last append is missing from the text |
| `TranscriptRing.LostVersionIsHarmless` | app/lvgldemo/meeting_page.c:632-635 | a version lost to a full ring does not change the text when a later one of its sentence is shown |
| `TranscriptRing.EarlierThreadAppends` | app/lvgldemo/meeting_page.c:698-728 | an append by the thread of a page left before puts the open sentence into the text twice |
| `TranscriptRing.LateResultShows` | app/lvgldemo/meeting_page.c:1722-1735 | a result of an earlier meeting that is shown on a new page before its meeting begins heads that meeting's text |
| `OmniCache.Cache.EnqueuePacket` | app/lvgldemo/voice_assistant.c:945-972 | the write loop and its post are steps of the receiver thread, for every pattern of partial and failed writes; a prefix of the packet is appended to the file, the whole packet unless a write fails, and then posted once |
| `OmniCache.Cache.CloseInput` | app/lvgldemo/voice_assistant.c:912-923 | closing sets the end mark, posts, clears the running flag and posts again if a consumer runs, and then joins exactly in that case |
| `OmniCache.Cache.ConsumerTurn` | app/lvgldemo/voice_assistant.c:794-858 | one turn is a snapshot, a decision and at most one seek and read of the state machine: it waits before 72 KiB are cached or the input has ended, waits or ends when all is played, and otherwise plays exactly the next bytes of the file, as many as the read brings, at most 8192 |
| `OmniCache.StepInv` | app/lvgldemo/voice_assistant.c:783-972 | every step of receiver and consumer thread, seeks and transfers apart, keeps positions, flags, snapshots and pending posts in agreement |
| `OmniCache.CloseMeansRead` | app/lvgldemo/voice_assistant.c:912-924 | whatever the interleaving, close returns only after as many bytes have been played as were written |
| `OmniCache.EveryPacketIsSent` | app/lvgldemo/voice_assistant.c:945-972 | without failed writes all enqueued packets have been written in order when close has returned |
| `OmniCache.NeverStuck` | app/lvgldemo/voice_assistant.c:822-836 | until close has returned some thread can always move: no interleaving leaves the consumer in its wait for ever |
| `OmniCache.RunsEnd` | app/lvgldemo/voice_assistant.c:794-858 | the length of a run is bounded by the work left, up to reads that bring nothing |
| `OmniCache.MaximalRunsReturn` | app/lvgldemo/voice_assistant.c:783-972 | a run that cannot continue has returned from close with as much played as written |
| `OmniCache.PlaybackWaitsForData` | app/lvgldemo/voice_assistant.c:801-826 | without a timeout nothing is played before 72 KiB are cached or the input has ended |
| `OmniCache.ReadsFitTheBuffer` | app/lvgldemo/voice_assistant.c:839-846 | in every run what the consumer is about to read is between 1 and 8192 bytes |
| `OmniCache.StepPlays` | app/lvgldemo/voice_assistant.c:839-855 | in every run only a transfer plays, at most 8192 bytes, and exactly the bytes of the file at the shared offset |
| `OmniOrder.MissIff` | app/lvgldemo/voice_assistant.c:842-846 | in every run a write lands before the end of what was written exactly when the consumer has seeked since the receiver's seek and has not read up to the end since |
| `OmniOrder.NoMissMeansInOrder` | app/lvgldemo/voice_assistant.c:783-972 | if no write lands so, what has been played is at every moment a prefix of what was written, and when close has returned all of it: without failed writes every packet, once and in order |
| `OmniOrder.ClosedInOrderIff` | app/lvgldemo/voice_assistant.c:783-972 | when close has returned, everything written has been played in order exactly when no write landed so, for bytes that can be told apart |
| `OmniOrder.SeekBetween` | app/lvgldemo/voice_assistant.c:954-966 | a run in which the consumer seeks between the receiver's seek and its write, and the second packet replaces audio that has not been played |
| `OmniOrder.LastMissHangs` | app/lvgldemo/voice_assistant.c:912-924 | if the last write of all lands so, no continuation returns from close |
| `DispatchRing.Ring.Async` | app/lvgldemo/lvgl_dispatch.c:38-65 | a callback is rejected exactly when it is null or 31 are pending, and otherwise queued behind them |
| `DispatchRing.Ring.TakeFirst` | app/lvgldemo/lvgl_dispatch.c:83-84 | the oldest pending callback is taken |
| `DispatchRing.Ring.DrainQueue` | app/lvgldemo/lvgl_dispatch.c:67-88 | the budgeted loop runs pending callbacks, with whatever is enqueued meanwhile, as the bounded queue does |
| `DispatchRing.DrainKeeps` | app/lvgldemo/lvgl_dispatch.c:67-88 | a drain keeps the order, takes nothing back, and stops with an empty queue or after exactly 32 callbacks |
| `DispatchRing.DrainRunsAllPending` | app/lvgldemo/lvgl_dispatch.c:67-88 | a drain runs everything that was pending when it began and at most 32 callbacks, even if they enqueue more |
| `DispatchRing.EveryRunIsFifo` | app/lvgldemo/lvgl_dispatch.c:38-88 | over any run of enqueues and drains executed items followed by pending ones are the accepted ones in order |
| `Utf8.IsValidUtf8` | app/lvgldemo/ai_page.c:390-416 | accepts exactly the strings made of whole characters by byte shape (section 3 of RFC 3629) |
| `Utf8.SanitizeInPlace` | app/lvgldemo/ai_page.c:418-455 | the two-cursor loop leaves in the buffer the whole characters of the string, in order, and a terminator |
| `Utf8.SanitizedIsValid` | app/lvgldemo/ai_page.c:418-455 | repaired text always passes the check |
| `Utf8.SanitizedIsIdentityIff` | app/lvgldemo/ai_page.c:418-455 | the repair leaves a string unchanged exactly when it passes the check |
| `Utf8.SanitizedIsIdempotent` | app/lvgldemo/ai_page.c:418-455 | repairing twice is repairing once |
| `Utf8.SanitizedKeepsAscii` | app/lvgldemo/ai_page.c:418-455 | no ASCII byte is lost or moved |
| `Utf8.ByValue` | app/lvgldemo/ai_page.c:396-413 | the byte ranges of one to four byte characters and of continuation bytes |
| `Utf8.TextIsKept` | app/lvgldemo/ai_page.c:390-455 | every text of Unicode characters in the encoding of section 3 of RFC 3629 passes the check and comes through the repair unchanged |
| `Utf8.LeadDecides` | app/lvgldemo/ai_page.c:390-455 | by value of its first byte, a character of one to four bytes is kept if all of it is there, and anything else fails the check and costs that one byte |
| `ChatText.CollapseInPlace` | app/lvgldemo/ai_page.c:468-509 | the cursor loop rewrites the buffer to the collapsed text and a terminator |
| `ChatText.SpacesByValue` | app/lvgldemo/ai_page.c:473-485 | white space is tab, newline, carriage return and space, and nothing else |
| `ChatText.CollapsedIsReference` | app/lvgldemo/ai_page.c:464-509 | the result is the newline-join of the non-blank lines without their trailing blanks |
| `ChatText.CollapsedIsNormal` | app/lvgldemo/ai_page.c:464-509 | no blank line, no white space before a newline, none at either end |
| `ChatText.CollapsedIsIdentityIff` | app/lvgldemo/ai_page.c:464-509 | exactly such texts are left unchanged |
| `ChatText.CollapsedIsIdempotent` | app/lvgldemo/ai_page.c:464-509 | collapsing twice is collapsing once |
| `ChatText.InkIsKept` | app/lvgldemo/ai_page.c:464-509 | all bytes other than white space are kept in order |
| `ChatText.ValidityIsKept` | app/lvgldemo/ai_page.c:464-509 | text that passes the UTF-8 check still passes it |
| `CallState.SanitizePhoneNumber` | app/lvgldemo/bt_call_handler.c:36-58 | of the first 64 bytes, terminated or not, the dialable ones are kept, at most 63 of them, and terminated |
| `CallState.SanitizedTwice` | app/lvgldemo/bt_call_handler.c:36-58 | sanitizing is idempotent |
| `CallState.SanitizedIsIdentityIff` | app/lvgldemo/bt_call_handler.c:36-58 | exactly the dialable numbers of at most 63 bytes are left unchanged |
| `CallState.SanitizedParts63` | app/lvgldemo/bt_call_handler.c:36-58 | below the limit every byte is kept or dropped by itself, in its place; at most the first 63 dialable bytes are kept and nothing from byte 64 on is looked at |
| `CallState.WriteCallState` | app/lvgldemo/bt_call_handler.c:60-79 | the print buffer receives the first 255 bytes of the line of state, sanitized number and name, leaving out what is empty |
| `CallState.StateNames` | app/lvgldemo/bt_call_handler.c:342-353 | the six states and their words |
| `CallState.OtherWords` | app/lvgldemo/bt_call_handler.c:342-353 | every word that is none of these counts as idle |
| `CallState.LineLayout` | app/lvgldemo/bt_call_handler.c:66-75 | state, number and name with colons between them and a newline behind; an empty name is left out, and an empty number if there is no name |
| `CallState.Split` | app/lvgldemo/bt_call_handler.c:322-340 | the string is ended in place at the first occurrence of a byte and the rest follows it |
| `CallState.Phone.ParseCallState` | app/lvgldemo/bt_call_handler.c:313-374 | state, sanitized number and name of the first line are stored; an empty line changes nothing |
| `CallState.ParsedLine` | app/lvgldemo/bt_call_handler.c:60-79 | parsing a printed line gives back the state, the sanitized number and the name up to a newline and 63 bytes, for every number and name, colons allowed |
| `CallState.ParsedPrint` | app/lvgldemo/bt_call_handler.c:313-374 | parsing what the print buffer received gives back the same, however long the line was |
| `CallState.NameSurvivesIff` | app/lvgldemo/bt_call_handler.c:313-374 | the name comes back exactly when it has at most 63 bytes and no newline |

## Left out

- The screens, buttons, fonts, sounds and language tables of the demo, the camera, JPEG and Bluetooth stacks, and all logging and timing: they carry no invariant of the parts above.
- TLS, sockets and the cloud services: a connection is a byte stream with arbitrary short reads, idle reads and failures.
- What the receiver does when a capture times out (it deletes the file, app/lvgldemo/camera_page.c:491-520): the transfer is modelled while no timeout strikes.
- `cam_ack_next_offset` is written but no decision depends on it.
- An ACK buffer that cannot be allocated counts as an answer that is not sent.
- ImageProgress.OneCleanRoundSuffices: the round starts when the receiver has handled what it has read; unconditional completion does not hold, because a timeout resends nothing, the answer queue is emptied before each wait, and a complete receiver does not repeat its answer.
- SpiStream.FullBufferStallsIff: progress of the SPI parser on a damaged length field is characterized, not guaranteed, because the code does not guarantee it.
- UartFrames.SendFrame: payloads so long that the 16-bit total wraps are excluded; no caller sends them.
- WavFile.Concat: a short write is one that leaves less in the file, and the position asked for afterwards is the size of the file; signed overflow in the sums of file positions and sizes is taken to wrap; a missing output file for the read-back check is not distinguished.
- WavChunks.ParseHeader: there is no result to state when the loop never ends; when that is, WavChunks.HeaderForeverIff and WavChunks.EndlessIff say.
- The random masking key is a parameter of WebSocketFrames.SendFrame, which holds what the text and the binary sender have in common.
- The JSON inside a transcription result, and so which text frames become sentences: it is a function of the text that is handed out.
- AsrBacklog.Backlog.Push: allocation is taken to succeed; without memory the source drops the block being read.
- AsrBacklog.TranscribeStream: the control messages around the audio are reduced to whether the handshake succeeds.
- TranscriptRing.QuietMeetingTextIff: compares with everything handed out in meetings without an append, minutes or a change of page in between; for all others TranscriptLife.MeetingTextIff compares with what was shown.
- TranscriptLife: each update and each append is one step, though the source guards neither; a torn string is not part of this model.
- `meeting_page_add_transcript`: nothing calls it.
- OmniCache: opening is taken to succeed; the methods of the two threads run alone, and what the other thread does in between is covered by the runs of the state machine.
- The dialogue state of the voice assistant, its own WebSocket client in the chat page, and the image analysis steps: their flags are driven by cloud events that are not part of this model.
- CallState.WriteCallState: what follows the first 255 bytes of an overlong line in the file; no caller prints one, names having at most 63 bytes.
- A null pointer passed as number, name or text is modelled as the empty string.
