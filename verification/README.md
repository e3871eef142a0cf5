# Webson, modelled and proved in Dafny

Webson frames messages as in RFC 6455 and adds an extension of its own: on a streaming connection every data frame
carries a 15-bit stream id and a cancel bit, so that many messages can be under way at once. This project models
that protocol from the callers' payloads to the peer's handlers, and proves what it promises, or exactly when it
keeps the promise. Compression is off throughout, except in the handshake.

| file | models |
|---|---|
| `Bytes`, `Masking`, `Frames`, `Wire` | the wire format: integers, masking, one frame, a whole connection's bytes cut anywhere |
| `Rfc6455` | the same in plain arithmetic on byte values, after section 5.2 of RFC 6455, for any sender: what each byte is, and what becomes of it |
| `Codec`, `Reading` | the same as the program runs it: `assemble` and `Dispatch` over byte arrays masked in place; the loop of `Start` over its reads |
| `Fragments`, `Receiver`, `Assembly`, `History` | `split`, the loop of `DispatchReader`, `merge`; demultiplexing, and what it makes of any frames whatever; why demultiplexing by reusable ids loses nothing |
| `Allocator`, `Multiplex`, `Schedule`, `Multiplexing`, `Progress`, `Exhaustion` | stream mode as a step system over any number of concurrent calls: what a schedule asks for and what its run makes of it, safety, ownership of ids, deadlock freedom and termination, ids that never come back |
| `Serial`, `SerialSchedule` | the same for connections without streams |
| `Readers` | when `DispatchReader` and `Dispatch` of the same bytes are the same to the receiver |
| `EndToEnd`, `Agreement` | protocol, codec and receiver together; the same over a link whose two ends agreed in the handshake |
| `ChunkReader` | one message read while it arrives (TriggerOnStart on, Synchronize off) |
| `Config`, `Decimal`, `Handshake` | `setup`, and the negotiation of streams and compression |
| `Pool`, `StatusEvents` | the connection pool and its broadcasts; status history and `OnReady` |

## How to read it

Goroutines become steps: `Multiplex.Step`, `Serial.SStep` and `ChunkReader.Step` name what happens between two points
where another goroutine may run, and a run is any sequence of enabled steps. What a run's schedule asks for is
`Schedule.Asked`, or in the callers' terms a list of `Agreement.Ask`; delivery is stated over these. One frame copy is one step. A client's
random mask key, the made-up name of a pool node, what a `Reader` returns, how much of the stream arrives and which
header reads come back short are parameters, universally quantified.

The receiver's function `Receiver.Demux` is defined on frames; `Reading.Start` proves that the loop computes it from
bytes, and `Receiver.Inbox.Handle` that the map it updates follows it. A message handed to a handler is an entry of
`delivered`; handlers run in that order when Synchronize is on, and are started in that order otherwise.

Every lemma switches Dafny's automatic induction off (`{:induction false}`), so an inductive proof is the calls its
body makes.

## What the code does that its documentation does not say

- The stream limit admits 32768, and the documentation calls it the largest id. On the wire that id needs the cancel
  bit: it reads as a cancelled id 0, and the peer stops (`Frames.StreamHeadRoundTrip`,
  `Exhaustion.LargestIdIsHandedOut`). Delivery needs MaxStreams <= 32767.
- Ids are said to be spent only when all are in use. The search gives up when every id above the cursor and id 1 are
  taken; the ids from 2 up to the cursor are not looked at (`Allocator.GivesUpEarly`, a run in
  `Exhaustion.FreeIdRefused`). It then returns with the id lock held, for good: no later call gets past that lock
  (`Exhaustion.ExhaustedForGood`). `DispatchReader` ignores the failure and goes on with id 0
  (`Schedule.FailedAllocation`).
- The allocator is given the configured limit, not the negotiated one (`Handshake.IdsWithinNegotiatedLimit`).
- `AlwaysMask` is never consulted: clients mask, servers do not.
- A frame length of 2^63 or more turns negative and counts as no payload (`Rfc6455.AnyFrameTaken`).
- A call that returns without having written its final frame, because a status check failed or because it cancelled
  its message, keeps its id for ever (`Exhaustion.UnfinishedCallsKeepTheirIds`).
- `DispatchReader` of a control message makes a message of every read; pings and pongs come out as `Dispatch` would
  send them exactly when the source reports EOF together with its first data (`Readers.LegalControlEqualsIff`).
- `setup` does not relate ChunkSize to BufferSize, though a frame larger than the read buffer ends the connection
  (`Config.ChunksFitTheBuffer`).
- `cleanClose` takes no lock. It can close the channel a `ReadIter` call is about to send on, which panics
  (`ChunkReader.RaceExample`). A consumer whose message is cancelled, or whose `ReadIter` comes after `cleanClose`,
  waits for ever (`ChunkReader.StrandedIff`, `ChunkReader.ConsumerWaitsForEver`).
- Without streams, a message abandoned midway is put in front of the next one (`Serial.MeantIffUndisturbed` and
  `Serial.UndisturbedIffNothingFound`, a run in `Serial.AbandonedExample`).
- Casting out a connection that no pool was ever asked to add dereferences a nil node, so `Pool.Pool.Remove` and
  `Pool.Pool.CastOut` require that one was.
- With headers of the caller's own, the two ends can disagree (`Handshake.OverriddenHeadersCanDisagree`, an
  instance in `Handshake.OverriddenHeadersExample`).

## Model

| member | source | states |
|---|---|---|
| EndToEnd.NothingIsInvented | connection.go:186-301 | For any schedule of calls, mask keys, cut of the byte stream and pattern of short reads: what the handlers are triggered with is exactly what the schedule asked for and the frames that came out complete, and so a prefix of what the whole wire completes |
| Agreement.MessagesArrive | connection.go:376-489 | From the handshake to the handlers: over a streaming link both ends agreed on, with a limit below 32768 and chunks that fit the receiver, exactly the bytes handed to `Dispatch`, or read by `DispatchReader`, of every call written in full are triggered, in the order of last frames, and each data call's exactly once if its final frame was written, else never |
| Agreement.SuccessArrives | connection.go:186-237 | In such a run every call that returned without failing, a failed source and `DispatchReader` of a control message apart, has its message among those triggered |
| Agreement.PlainMessagesArrive | connection.go:376-489 | Over an agreed link without streams: exactly the bytes handed to `Dispatch`, or read by `DispatchReader`, of the calls written in full are triggered, in write-lock order, up to a close message, if and only if no completed message met the remains of an abandoned one |
| Agreement.AgreedPeersFit | message.go:243-285 | The receiving end of an agreed link fits every history of legal calls |
| EndToEnd.EverythingArrives | connection.go:376-489 | With MaxStreams <= 32767, no failed allocation, no close message, a fitting peer and full reads: every message the schedule asked for and the calls wrote in full is triggered, once, whole, in the order of last frames |
| EndToEnd.NothingIsInventedSerially | connection.go:389-487 | The same without streams, in every run: a prefix of what the receiver makes of the calls' blocks in write-lock order; read in full, and every frame acceptable, it is all of that, and it is what the schedule asked for and the calls wrote in full if and only if no completed message met the remains of an abandoned one |
| EndToEnd.WritesAreTheEvents | connection.go:186-202 | In every run a frame on the wire, if its call was asked to dispatch p, is the one `Dispatch` assembles of p at that place |
| EndToEnd.WritesAreTheBlock | connection.go:191-200 | Without streams they are the frames of the call's block |
| EndToEnd.ReaderWritesAreTheEvents | connection.go:204-237 | And if its call was asked to read from a source, the one `DispatchReader` assembles of what that read returned, cancel bit included |
| EndToEnd.ReaderWritesAreTheBlock | connection.go:204-237 | Without streams they are the frames of the call's block |
| EndToEnd.WireIds | connection.go:253-274 | In every run the ids on the wire are within MaxStreams, even after the socket broke |
| Multiplexing.MultiplexingIsCorrect | connection.go:457-487 | For every schedule and however much was consumed: the receiver has triggered exactly the messages, of those the schedule asked for, whose last frame it saw, in that order, whole; it has stopped exactly if it saw a close message or an id the wire cannot carry; its pending map holds, for each open message, under its id, exactly the frames received, and nothing else |
| Multiplexing.OpenMessagesAreOwned | connection.go:289-300 | An open message's id is owned by its call, or the call has released it early and holds the write lock for its final frame |
| Multiplexing.OwnershipSurvivesEarlyRelease | connection.go:253-300 | Between two frames of a message no frame of another message carries its id |
| Multiplexing.InFlightIdsDistinct | connection.go:253-274 | Calls in flight have distinct ids, except in the window of the early release, where one holds the write lock for its last frame and the other has written nothing |
| Multiplexing.WhatStopsTheReceiver | connection.go:443-462 | The receiver stops exactly at a close message, a frame of a call that got no id, or id 32768 |
| Multiplexing.EverythingIsDelivered | connection.go:457-487 | With MaxStreams <= 32767, no failed allocation and no close message asked for, everything asked for and written in full is triggered, each data message exactly once if its final fragment was written, else never |
| Multiplexing.CancelledInRuns | connection.go:221-231 | In every run a cancelled message is never completed and its id never used again |
| Multiplexing.JobsAreOk | connection.go:196-236 | Both kinds of call, once the reader has ended, are calls of the step system |
| Multiplexing.PayloadsSurvive | connection.go:186-237 | Of a data message one frame triggers it: the chunk that reaches the end of what was handed to `Dispatch`, with exactly those bytes, or the read that reports EOF, with exactly what was read up to then |
| Schedule.AskedAt | connection.go:186-208 | The calls a schedule asks for are those it makes, in order, each with its message and its kind |
| Schedule.CallsAreAsAsked | connection.go:186-237 | In every run the calls are those asked for, every frame on the wire is a fragment of what was asked of its call, and status and socket are as the schedule left them |
| Schedule.WhatCallsWrite | connection.go:196-236 | What a call has put on the wire is its first fragments in order, each once; it has returned if and only if all are written or it failed: a status other than ready, a broken socket, or, in `Dispatch`, no id |
| Schedule.FailedCallsAreSilent | connection.go:278-285 | A call that has failed writes nothing more, however the run goes on |
| Schedule.NothingAfterTheBreak | connection.go:299-300 | Nothing is written after the socket broke |
| Schedule.FailedAllocation | connection.go:204-208 | A failed allocation leaves the id lock taken, reserves nothing and rewinds the cursor; `Dispatch` returns, `DispatchReader` goes on to its first frame with id 0 |
| Readers.ReaderEqualsDispatch | connection.go:204-237 | On a streaming connection, from any receiver state that holds nothing under the id, and for any pattern of reads ending in EOF: the receiver ends up exactly as after `Dispatch` of the same bytes, with that one message delivered and what it held of others untouched |
| Readers.SerialReaderEqualsDispatch | connection.go:204-237 | The same without streams, whatever is pending under key 0: that, with the bytes added, is delivered |
| Readers.ControlReaderEqualsIff | message.go:202-205 | For control types, whose every frame is final, the two deliver the same if and only if the reads happened to be the chunks; for a close message, after which the receiver stops, if and only if the first read was the first chunk |
| Readers.LegalControlEqualsIff | message.go:202-205 | For payloads of one chunk: if and only if the first read reports EOF; for a close message, if and only if it has all the data |
| Readers.ControlReaderSplits | message.go:202-205 | A source that reports EOF on a read of its own makes two messages of one ping |
| Multiplex.StepKeeps | connection.go:186-301 | Every step keeps the invariant on locks, ids, owners, early releases and the log |
| Multiplex.RunKeeps | connection.go:186-301 | So does every run |
| Multiplex.CopyFits | connection.go:289-300 | A copied frame continues its own message, and a first frame finds no message open under its id: why the write lock must span release and copy |
| Multiplex.NewIdIsFree | connection.go:253-274 | A new id is what the search finds: within the limit, not reserved before, no other owner's, reserved now, the new cursor, and its owner has written nothing yet |
| Multiplex.ReleasesOwnIdOnly | connection.go:293-297 | The early release gives up exactly the call's own reserved id; all other owners keep theirs |
| Progress.NoDeadlock | connection.go:253-300 | While no allocation has failed, an unfinished call means that some call can take a step |
| Progress.LockOrder | connection.go:289-298 | Who waits for the write lock does not hold it, and holds the id lock only after a failed allocation |
| Progress.OnlyLocksBlock | connection.go:253-300 | Only a lock somebody holds keeps a call from its next step: the id lock at the allocation and before the final frame, the write lock before each data frame |
| Progress.ControlNeverWaits | connection.go:289-298 | A control call has no id, holds no lock, and can always take its next step, even after a failed allocation |
| Progress.ReservedIdsAreUsed | connection.go:253-298 | Every reserved id is that of a data call whose final frame is not written |
| Progress.CallsComeToAnEnd | connection.go:186-237 | Under any schedule, with status changes, a breaking socket and new calls in between, the calls take at most as many steps as their fragments, those of the new calls included, allow |
| Progress.StuckIffReturned | connection.go:253-300 | With no failed allocation, no call can take a step if and only if all have returned: a schedule that goes on as long as it can ends so |
| Progress.SomeScheduleEnds | connection.go:186-300 | From every reachable state the calls alone can reach a state in which none can move |
| Exhaustion.ExhaustionIsForever | connection.go:262-265 | After a failed allocation no step lets a call past the id lock |
| Exhaustion.ExhaustedForGood | connection.go:262-265 | Nor does any continuation: a call not past that lock never writes its final frame |
| Exhaustion.ExhaustionExample | connection.go:262-265 | A run in which this happens |
| Exhaustion.FreeIdRefused | connection.go:256-270 | A run in which an allocation fails though an id is free |
| Exhaustion.EarlyReleaseExample | connection.go:293-299 | A run in which two calls in flight have the same id, one of them about to copy its final frame |
| Exhaustion.LargestIdIsHandedOut | config.go:96-98 | `setup` accepts 32768, and with it there is a run without any failure that uses id 32768 and makes the peer stop |
| Exhaustion.UnfinishedCallsKeepTheirIds | connection.go:278-298 | On an unbroken connection a data call that has returned keeps its id reserved if and only if its final frame was not written, and so in every continuation |
| Allocator.SearchIsExact | connection.go:256-270 | The search fails exactly when every id above the cursor and id 1 are taken; otherwise it returns the first free id above the cursor, or id 1 after wrapping |
| Allocator.GivesUpEarly | connection.go:256-270 | When it fails, a free id exists if and only if one lies in 2..cursor |
| Allocator.StreamIds.Take | connection.go:255-272 | The loop terminates, computes that search, and reserves only the id it returns |
| Allocator.StreamIds.Release | connection.go:293-297 | Exactly the id given is no longer reserved |
| History.DemuxIsCorrect | connection.go:441-487 | For every history in which calls write in order and no first frame meets an open message of its id, the receiver is stopped, has delivered and holds exactly what it should |
| History.DataFrameEffect | connection.go:463-487 | A data frame completes its message exactly at the final fragment, and otherwise becomes or extends its own entry |
| History.NoInterleaving | connection.go:289-300 | In such a history messages under one id never interleave |
| History.WrittenOnceInOrder | connection.go:196-200 | A call's fragments are written at most once, in order |
| History.CompletedExactlyOnce | connection.go:466-485 | A message is completed once if its last event is final, and otherwise not at all |
| History.CancelledIdIsDead | connection.go:221-231 | After a cancel frame no data frame of any message carries its id |
| History.CancelledIsNeverDelivered | connection.go:441-449 | The entry the cancel frame leaves behind holds just that frame's payload, stays as it is while the receiver runs, and is never completed |
| Receiver.PrefixDelivers | connection.go:457-487 | A receiver that sees only the first frames delivers a prefix |
| Receiver.DemuxConcat | connection.go:457-487 | Demultiplexing resumes: a sequence of frames may be cut anywhere |
| Receiver.Inbox.Handle | connection.go:440-487 | The loop body over the mutable map is one step of the receiver, cancel bit first |
| Assembly.DemuxAnyFrames | connection.go:440-487 | For any frames of any sender: the receiver triggers each control message, and at each final part the message made of the parts with its key since the last end or cancel under it; under each key it holds the unfinished parts; it stops exactly at a close message or an impossible id |
| Frames.DecodeOwn | connection.go:389-455 | The first frame of any part of the wire is decoded if and only if it is acceptable, arrived whole and its header reads were full, and then it is the frame that was sent |
| Frames.MetaRoundTrip | message.go:200-232 | The two meta bytes are accepted exactly when the header rules allow the frame, and then give back its type, FIN, flags and size code |
| Frames.WhatParseMetaRefuses | message.go:243-285 | In arithmetic on the two byte values: which headers of any sender are refused, with close code 1002 or 1009, and what is read from the others |
| Frames.SizeRoundTrip | message.go:220-232 | The three length forms give the size back |
| Frames.StreamHeadRoundTrip | connection.go:440-451 | Stream id, cancel bit and payload survive exactly for ids 1..32767 |
| Frames.TakeOwnBody | connection.go:428-455 | With the header read, a frame comes out exactly when the limits allow it, its body arrived and its id is legal |
| Rfc6455.EncodeIsLayout | message.go:181-241 | Byte by byte what `assemble` puts on the wire: type and flags, the shortest of the three length forms (up to 125, up to 65535, above), mask key, masked data, stream head |
| Rfc6455.AnyFrameTaken | connection.go:389-455 | Any frame of any sender, in any length form, masked or not, cut anywhere and with any header reads short: exactly what becomes of it, field by field, or why the connection stops |
| Rfc6455.HelloExamples | message.go:200-241 | The examples of section 5.7 of RFC 6455: "Hello" unmasked, masked, and as a ping |
| Rfc6455.SizeExamples | message.go:220-232 | And binary data of 256 and of 65536 bytes |
| Wire.PrefixSafety | connection.go:389-455 | Wherever the bytes are cut and whichever header reads are short, the decoded frames are exactly the leading frames that survive: nothing altered or invented |
| Wire.RoundTrip | message.go:161-285 | Uncut and read in full, everything before the first unacceptable frame comes back; all of it if and only if every frame is acceptable |
| Bytes.BigEndianRoundTrip | message.go:183-183 | Big-endian integers come back modulo 256^width, as PutUint16 and PutUint64 write them |
| Bytes.BigEndianAt | message.go:183-183 | Byte k from the right is n / 256^k mod 256 |
| Masking.TwoLayers | message.go:141-159 | Masking with the widened key is XOR with the repeated private mask, then the masking of section 5.3 of RFC 6455 |
| Masking.LengthCheckIsExact | config.go:99-101 | That holds for all payloads and mask keys if and only if 4 divides the private mask's length |
| Masking.MaskedAt | message.go:141-159 | Byte i goes out XORed with byte i mod 4 of the frame's mask, and with the private mask, repeated, if there is one |
| Masking.MaskIsInvolution | message.go:153-159 | Masking twice gives the payload back |
| Masking.SetMask | message.go:141-151 | The key array is the widened key, or the frame's own key when there is no private mask |
| Masking.MaskPayload | message.go:153-159 | In place, exactly the given range is XORed, the key starting afresh |
| Codec.Assemble | message.go:161-241 | The frame array is the encoding of the payload as it was; the caller's buffer is left masked exactly when the sender masks and no stream head was put in front |
| Codec.FillFrame | message.go:190-241 | Meta bytes, extended size, mask key and body stand in their places for all three length forms |
| Codec.WithStreamHead | message.go:181-189 | Stream id, cancel bit and payload in a new buffer |
| Codec.DispatchBytes | connection.go:186-202 | Though the chunks alias the caller's buffer, the bytes written depend only on the payload handed in; what is left in the buffer is stated in full |
| Codec.MaskedOnce | message.go:212-218 | Each byte of the buffer is afterwards untouched, or XORed once, with its own chunk's key |
| Codec.MasksInPlaceIff | message.go:212-218 | Whatever chunk size and private mask: with these options some dispatch changes the caller's buffer if and only if they mask and put no stream head in front |
| Codec.DispatchReaderBytes | connection.go:214-236 | Though all reads go through one vessel, which masking in place may leave scrambled, the bytes written depend only on the data read |
| Reading.Start | connection.go:376-489 | Whatever bytes arrive in whatever pieces, the handlers are triggered with what demultiplexing the decoded frames gives |
| Reading.ReadFrame | connection.go:390-455 | One turn of the loop over the reads is one decoding step: same frame, same bytes used, or same reason to stop |
| Reading.ParseHeader | message.go:243-285 | `parseMeta`, branch by branch, agrees with the header specification |
| Reading.ReadSize | connection.go:409-419 | The extended size is read only where the size code asks for it |
| Reading.ReadBody | connection.go:428-455 | Limits, payload and stream head, for any size including a negative one |
| Reading.TakePayload | connection.go:432-439 | The payload comes out unmasked, and leaves the stream, exactly if it fits the read buffer and has arrived |
| Reading.ReadRest | connection.go:409-455 | Extended size, mask key and body in turn, or the reason to stop |
| Reading.TakeHead | connection.go:440-451 | Of a body of two bytes or more, cancel bit and id are taken off in place, and id 0 is refused; of a shorter one no frame comes out |
| Fragments.SplitIsPartition | message.go:313-347 | ceil(n / limit) chunks, one for the empty message, all but the last full, exactly the last complete, and together the payload |
| Fragments.SplitAt | message.go:329-345 | Chunk i is the slice [i * limit, min((i + 1) * limit, n)) |
| Fragments.ChunkCountIsCeiling | message.go:324-328 | The computed count is the ceiling |
| Fragments.Split | message.go:314-347 | The loop fills exactly these chunks |
| Fragments.MergeUndoesSplit | message.go:287-311 | Merging the chunks in order restores payload and completion |
| Fragments.MergePartOfSplit | message.go:287-311 | Merging only the first k gives the first k * limit bytes, incomplete |
| Fragments.ReaderFragsFacts | connection.go:216-236 | The frames of `DispatchReader` carry exactly the data read up to its first error; only the last ends the message (EOF) or cancels it (any other error) |
| Fragments.ReaderFragsAt | connection.go:216-236 | Frame k carries the data of read k; there is one for each read up to the first that reports an error; EOF makes it final, another error a cancel |
| Fragments.DataReadIs | connection.go:216-236 | What is read is the data of those reads, one after the other, and the last of them says how the source ended |
| Fragments.ReadLoop | connection.go:216-236 | The loop produces these frames |
| SerialSchedule.WireIsSerial | connection.go:191-200 | In every run the wire is the frames of what the schedule asked for, block after block in write-lock order, no call twice; only the lock holder's block can still grow |
| SerialSchedule.AskedAt | connection.go:186-208 | The calls a schedule asks for are those it makes, in order, each with its message |
| SerialSchedule.CallsAreAsAsked | connection.go:186-237 | In every run calls, lock order, status and socket are as the schedule has them |
| SerialSchedule.WhatCallsWrite | connection.go:278-285 | A call has returned if and only if all its frames are written or it failed, by a status other than ready or a broken socket; and a failed call writes nothing more |
| Serial.DemuxBlocks | connection.go:463-486 | What the receiver makes of the blocks, call by call |
| Serial.OnlyKeyZero | connection.go:465-486 | The only pending key is 0 |
| Serial.MeantIffUndisturbed | connection.go:463-486 | Handlers see exactly the meant messages in lock order if and only if no completed message met the remains of an abandoned one |
| Serial.UndisturbedIffNothingFound | connection.go:463-486 | That condition over the calls alone: for every whole data message before a close message, whatever calls abandoned since the last whole one has no data, and the first of it is of the same type |
| SerialSchedule.DispatchesSerialise | connection.go:191-236 | If every call before the last finished writing, exactly what the schedule asked for and was written is triggered, in lock order, up to a close message |
| SerialSchedule.SaidIffNothingFound | connection.go:463-486 | In every run, what was asked for and written in full is what is triggered if and only if that condition on the calls holds |
| Serial.AbandonedExample | connection.go:221-231 | A run in which an abandoned message is put in front of the next one |
| Serial.SerialNoDeadlock | connection.go:191-194 | While a call has not returned, some call can take a step |
| Serial.OnlyTheLockBlocks | connection.go:191-194 | Only the lock, held by another call, keeps a call from its next step |
| Serial.SerialCallsComeToAnEnd | connection.go:186-237 | Under any schedule, with status changes, a breaking socket and new calls in between, the calls take at most as many steps as their fragments, those of the new calls included, allow |
| Serial.StuckIffReturned | connection.go:191-194 | No call can take a step if and only if all have returned |
| ChunkReader.ChunksAreConserved | message.go:287-311 | For every interleaving of arrivals, a cancel frame, one ReadIter at any moment, Read calls and receives: read, consumed, queued, buffered and in-hand bytes are, in order, the first frame's payload and those of the frames that arrived since |
| ChunkReader.CloseIsSafeOutsideTheWindow | message.go:298-301 | The channel is closed at most once and never sent on after closing, if and only if no `cleanClose` strikes while ReadIter is between setting poolReading and sending |
| ChunkReader.RaceExample | connection.go:104-113 | That window is real: a run that panics |
| ChunkReader.IterationYieldsTheMessage | message.go:368-394 | Once ReadIter has returned and merge is not at work, the channel is closed if a final frame came, and only then or by `cleanClose`; closed and drained, it has yielded the payloads of all frames; it never holds more than chanSize chunks |
| ChunkReader.ReadReturnsTheMessage | message.go:349-365 | `Read` refuses a message whose final frame has not come; without ReadIter the first that is not refused returns the payloads of all frames, later ones nothing |
| ChunkReader.BlockedOnlyByTheConsumer | message.go:287-311 | merge waits only for room in the channel, with something there to receive; ReadIter for nobody once it has the lock; the next frame of an unfinished message only for a ReadIter under way |
| ChunkReader.IterationExample | message.go:287-311 | A run with room for one chunk: the last frame waits for a receive, then the consumer gets all of it and the end |
| ChunkReader.StrandedIff | connection.go:104-113 | In every run that does not panic a message is left unfinished with no closed channel if and only if a frame cancelled it, or `cleanClose` came before ReadIter had set poolReading |
| ChunkReader.StrandedForGood | connection.go:441-449 | And so in every continuation: nothing ever closes a channel made for it |
| ChunkReader.ConsumerWaitsForEver | message.go:368-394 | A consumer that has taken what there was gets nothing more in any continuation, not even the end |
| Config.Config.Setup | config.go:89-118 | Which configurations are refused, what is defaulted, and what a refusal has already overwritten |
| Config.SetupInFigures | config.go:89-107 | In figures: limits, defaults 1024, 4096 and 5120, what is kept, and exactly what is refused |
| Config.SetupIsIdempotent | config.go:89-107 | Setting up what is settled changes nothing |
| Decimal.AtoiItoa | server.go:68-68 | A stream limit survives being written and read as a header |
| Decimal.AtoiIff | server.go:59-60 | A header value is read as n exactly if it is a sign, zeros and the digits of n, and n has 64 bits |
| Decimal.DecDigits | server.go:68-68 | Digit k from the right is n / 10^k mod 10 |
| Decimal.NoLeadingZero | server.go:68-68 | And there are no leading zeros |
| Handshake.BothSidesAgree | client.go:161-184 | With no protocol header overridden: whenever the server accepts, so does the client; both agree on streaming, on compression, and when streaming on the smaller limit, which is 1..32768 |
| Handshake.WhenTheServerRefuses | server.go:55-70 | The server refuses exactly when it streams and the client offers a limit that is not positive |
| Handshake.WhatTheServerAnswers | server.go:52-81 | To any request: it compresses if and only if it may and the eighteen letters of "permessage-deflate" stand, in any case, anywhere in the joined extension values; it streams if and only if it may and the client named a limit, with the smaller of the two; and whom it turns away |
| Handshake.WhatTheClientTakesUp | client.go:161-184 | And what the client makes of any answer |
| Handshake.JoinedByBlanks | server.go:73-73 | Header values are joined by blanks |
| Handshake.OverriddenHeadersCanDisagree | client.go:90-100 | With overridden headers they disagree exactly when these name a limit though the client does no streams and the server does, or spell "permessage-deflate" though the client does not compress and the server does |
| Handshake.OverriddenHeadersExample | client.go:90-100 | An instance: one end streams and the other does not |
| Handshake.LegalFramesPass | message.go:202-218 | After an agreed handshake every legal frame either side assembles passes the other's `parseMeta`, read as sent |
| Handshake.IdsWithinNegotiatedLimit | connection.go:258-261 | The ids handed out respect the negotiated limit if and only if the configured one does |
| Handshake.TakeOver | server.go:52-81 | The branches compute that negotiation and these response headers |
| Handshake.Negotiate | client.go:161-184 | The client's side of it |
| Pool.Pool.Add | pool.go:75-107 | The whole new state, and exactly when map and lists still agree: an admitted connection must not be a member already nor carry the pool's handler, a refused one must not be a member under another name |
| Pool.Pool.AgreementIs | pool.go:74-107 | Map and lists agree if and only if the keys are the members' names, the lists are the members of either kind, each once, the size is kept, and each member has the handler once |
| Pool.Pool.Remove | pool.go:109-138 | For a connection that a pool was once asked to add: the whole new state, and exactly when they still agree: unless the other kind's connection has the name |
| Pool.Pool.CastOut | pool.go:160-162 | For a connection that a pool was once asked to add: the whole new state and when it agrees, as for `remove`; a member leaves map, lists and its handlers, and casting out whoever has no place changes nothing |
| Pool.Pool.CastOutByName | pool.go:165-174 | It reports whether the name was there, which then leaves |
| Pool.Pool.Broadcast | pool.go:177-239 | Each meant member is sent the message once, every other nothing, in whatever order the map is visited; all get the payload as it was handed in, and the buffer is unchanged, if none of them masks it in place |
| Pool.Connection.MasksInPlaceIff | message.go:212-218 | A connection masks in place exactly if some dispatch, with some mask keys, leaves another payload than it was given |
| Pool.Connection.Dispatch | connection.go:186-202 | The payload as it was is sent; the buffer is left as assembling its chunks leaves it |
| Pool.Pool.ToKind | pool.go:187-202 | The same over a list; servers always get the payload as it was handed in |
| Pool.Pool.ToPick | pool.go:217-226 | The one of that name, if there is one, is sent the message with the payload as it was handed in; every other nothing |
| Pool.Pool.EveryoneByKind | pool.go:177-202 | The recipients of `Dispatch` are those of `ToClients` and `ToServers`, disjoint, and these are the two lists |
| Pool.Pool.EveryoneByName | pool.go:217-239 | They are those of `Except(n)` and `ToPick(n)`, disjoint |
| Pool.Pool.EveryoneByGroup | pool.go:205-214 | A group's broadcast goes to its members; everyone is the recipients of all the groups' broadcasts, no two groups sharing one |
| Pool.Replay | pool.go:75-138 | In every run where connections are added once, only added ones are cast out and names are not reused, map and lists agree, and the members are exactly those who joined and were not cast out, under their names |
| Pool.Connection.Revoke | connection.go:307-318 | The first handler of that name is dropped, if any |
| StatusEvents.EventsFormAChain | connection.go:338-357 | Each event starts at the status the one before ended with, none repeats a status, and the last ends at the current one |
| StatusEvents.EveryChangeIsTold | connection.go:342-351 | Every update that changes the status is told, in its place, with what it was and what it is now |
| StatusEvents.OnlyChangesAreTold | connection.go:342-351 | As many are told as there are changes |
| StatusEvents.InPlaceSince | connection.go:330-332 | The `OnReady` action is in place from its registration until another action is set |
| StatusEvents.OnReadyFiresOnce | connection.go:320-336 | For any sequence of status updates, `OnReady` and other `OnStatus(StatusReady, ...)` calls: the action runs at most once, and exactly when the first status change is to ready and the action is in place then |
| StatusEvents.Announcer.UpdateStatus | connection.go:338-357 | The events told, and the runs of the `OnReady` action, are those of the sequence so far |

## Left out

- Compression of payloads: flate is a library, and fragments compressed one by one do not simply concatenate.
- Heartbeats (`KeepPing`): wall clocks, and a comparison that does not detect a missing pong.
- The closing handshake, `ReStart` and the pool's client retry; `CloseCode` encoding.
- Sockets, TLS, HTTP parsing and hijacking, digests, random keys, URL parsing, header canonicalisation: header values
  and mask keys are parameters.
- A frame half copied when a socket breaks: a copy is one step that succeeds or fails. What arrives of the byte
  stream is nevertheless cut at any byte.
- A second cleanClose by `makeSureClose`, a second `ReadIter` on one message, and `Read` under Synchronize.
- TriggerOnStart on for many messages at once: `ChunkReader` follows one message, `Receiver` and everything on top of
  it has TriggerOnStart off.
- Readers that never end: `DispatchReader` is a call once its source has reported EOF or an error.
- Message types of more than four bits, which `assemble` lets spill into the flags, and private masks with an
  unsettled configuration.
- Unsynchronised access to `status`, `eventPool` and the pool's members by other goroutines: reads and writes of a
  field are atomic here.
- Pool.Pool.Broadcast: does not say what later recipients get when an earlier one, a client without a stream head,
  has masked the shared buffer in place; `Codec.DispatchBytes` says what one such dispatch leaves in it.
- Pool.Pool.Add: does not model the goroutine it starts, whose return removes the connection.
- Reading.TakeHead: does not say which of the two ends a one-byte stream body meets, the error for id 0 or a panic;
  that depends on what the read buffer holds behind it.
- Reading.Start: models bufio by what will arrive and which reads come back full; a peeked payload is a copy of the
  buffer's bytes.
- Multiplex.StepKeeps: needs MaxStreams >= 1, which a streaming connection has.
