# iodin: the MDB bus master, its wire protocol and its client, verified

iodin drives a vending-machine MDB bus over GPIO. It takes length-prefixed protobuf requests on one pipe and answers on another. This project models its three connected parts and proves what they promise, or exactly when they do.

* **Bus master.** `MdbBlock` describes blocks, request frames and buffer cells as values. `Pigpio` is the GPIO library as an environment: its calls may fail, take time up to a fixed latency, and deliver the device's words in any portions. `Polling` says which loops that poll the clock may go on for ever. `Mdb` is the driver itself, over one reused 80-byte array. `Durations` holds the duration arithmetic.
* **Wire codec.** `Wire` writes out the primitives of the Protocol Buffers Encoding specification ("Base 128 Varints", "Message Structure", "Length-Delimited Records", "Last One Wins"). `Messages` says what the two messages mean. `Codec` is the generated code: objects that merge, size and write themselves field by field.
* **Server and session.** `Frames` holds the length-prefixed frames. `Commands` says what one command may answer, and exactly when it is not answered. `ServerSpec` relates exchanges and whole runs. `Server` is the command state machine and its framed loop. `Client` is the client's call and its reference count. `Session` puts client, server, both pipes and the device's words together as a system of steps. Go's `int` has 32 or 64 bits; the client is modelled for both (`Width`).

Methods that change state are proved against functions and relations on values; the lemmas are about those.

## How to read it

* `Outcome` separates results from errors, from `Panic` (a failed assertion or a checked addition that overflows) and from `Unending`. A polling loop that need not end is followed for an arbitrary finite number of polls and then cut off as `Unending`, so everything stated holds of every finite prefix. When the loop must end, `Unending` is proved impossible.
* A `Hardware` object holds the true time `now`, which is unbounded. The code sees only `now` modulo 2^32. `stream` holds the words the device has still to deliver. `sent`, `polls`, `line` and `faults` record what was done, and `trace` every call in order, with its pin and format. An eager device has its words ready: a read brings at least one of them. Methods choose freely wherever the hardware would.
* `sites` are the true times at which a transaction computes its deadlines. A command, a run or a session may break off at a request only under a condition on these times, on the length of the transmission and on the size of the answer (`Commands.Breaks`). Panics are told exactly. An unfinished loop is told by a necessary condition, that its last deadline can be missed; `WaitMissedIff` and `SendMissedIff` say when this is also enough.
* A `Bus` is what a command finds: whether a driver is open, on which pins, and the words the device has still to deliver.
* Numbers of the wire and of the bus are written as numbers where a contract states what they mean: commands 1, 2, 3 and 100, statuses 1, 2 and 6, control words 0x00 and 0xff, field tags, baud rate and frame format.
* Circumstances are calm when polls advance (a positive wait step), no deadline is computed in the last 300 ms plus one poll before the tick counter wraps, and the device has fewer than 2^29 words to deliver (`Calm`, `CalmRun`).
* A `Response` fits the client when its encoding has at most 256 bytes.
* `hide` statements in proofs only keep definitions out of the solver's sight.

## What was found

Each of these has a lemma or a contract with the exact condition or the failing case.

* **Stale mode bits.** A transmission writes only the even cells and cell 1 of the buffer. A reply whose data and checksum arrive in a single read puts the mode bit on the second word of the next longer request (`StaleFlagReachesTheBus`). `FrameMarkedOnceIff` gives the condition for a clean frame over any history of reads.
* **Send deadlines.** The send loops compare elapsed time with an absolute tick. The deadline they enforce is late by the tick at which it was computed and by the gap to the loop's own clock read, so the intended one is enforced exactly when both are zero (`SendDeadlineIsAbsolute`). `Tx` carries this to every send timeout it reports, of the request and of the answers (`SendTimeoutIsLate`).
* **Deadlines near the wrap.** A deadline sum that overflows is a panic. A deadline close to the wrap may never be noticed: no tick is over the last one (`WaitThatNeverEnds`), and with any latency in the calls the looks at the clock can step over the ticks above the deadline lap after lap, exactly when the ticks left are fewer than the longest step (`WaitMissedIff`, `SendMissedIff`). Without latency that is not enough (`NotMissedInStep`). `Tx` says which deadline is to blame. `DeadlinesFit` gives ticks at which neither failure happens.
* **Transmit lengths.** The server does not check the length, so 0 or more than 39 bytes over an open bus always panics the driver (`Server.Server.Exec`, `BadLengthIsNeverAnswered`). In calm circumstances this is the only way for a server run over complete frames not to complete (`FrameStreamCompletes`), and for a session to be left with no other step than breaking off (`NeverStuck`).
* **Long responses.** A response over 256 bytes fails its call and leaves its body in the pipe, where the next call takes it for a length (`NextTakesBodyForLength`). For this server that length is always 2^31 or more. Where `int` has 64 bits the next call fails; where it has 32 bits, as on the 32-bit ARM boards the GPIO library is for, the length turns negative, passes the check against the buffer, and slicing the buffer panics (`NextFailsToo`). A session is in lockstep exactly as long as no such response has been read (`LockstepExactly`). It takes an echo, or a device reply, of 252 bytes (`LongDataReachable`).
* **Short length reads.** In the client a short read of the length is reported without an error and leaves the caller's response as it was (`NoErrorIff`).

## Model

| member | source | states |
|---|---|---|
| MdbBlock.ChecksumSeesOneByte | cmd/iodin/src/mdb.rs:207-210 | replacing one byte leaves the wrapping checksum the same only if it is the same byte |
| MdbBlock.ChecksumIsSum | cmd/iodin/src/mdb.rs:207-210 | the wrapping fold is the unbounded sum modulo 256 |
| MdbBlock.ChunkIndependence | cmd/iodin/src/mdb.rs:136-149 | for every split of the word stream into reads, the receive loop computes the one-pass result |
| MdbBlock.DeliveredWordsAccounted | cmd/iodin/src/mdb.rs:139-149 | every delivered word is in the response, is the end byte, or is in the discarded tail of the read that ended the reply |
| MdbBlock.IntactReplyAccepted | cmd/iodin/src/mdb.rs:139-165 | an intact non-empty block, in any reads and with anything after it, is received, judged good and acknowledged |
| MdbBlock.CorruptReplyRefused | cmd/iodin/src/mdb.rs:139-165 | changing the value of exactly one word, data or checksum, always ends in a checksum error and a NAK |
| MdbBlock.FrameMeaning | cmd/iodin/src/mdb.rs:116-123 | a frame carries the request and its checksum, with the mode bit on the first word only iff the stale odd cells under it are even |
| MdbBlock.FlagCellIsLastCover | cmd/iodin/src/mdb.rs:181-187 | an odd cell holds what the last read that covered it left |
| MdbBlock.FrameMarkedOnceIff | cmd/iodin/src/mdb.rs:116-123 | over any history of reads, the next frame is marked on its first word only iff the last read over each later word left no mark |
| MdbBlock.OneWordReadsKeepFramesClean | cmd/iodin/src/mdb.rs:116-123 | with reads of at most one word and even odd cells at the start, every frame is marked once and decodes to request and checksum |
| MdbBlock.StaleFlagReachesTheBus | cmd/iodin/src/mdb.rs:116-123 | one two-word read of a one-byte reply marks the second word of the next request |
| Durations.AsMicros32 | cmd/iodin/src/mdb.rs:213-225 | the checked conversion succeeds exactly below 2^32 - 1 microseconds, with the unbounded value |
| Durations.MillisAccepted | cmd/iodin/src/server.rs:106 | a reset duration is accepted exactly up to 4294967 ms |
| Pigpio.TickSinceIsElapsed | pigpio-rust/src/lib.rs:51-54 | across a wrap the tick difference is the true elapsed time exactly when that is below 2^32 |
| Pigpio.Hardware.NewSerial | pigpio-rust/src/lib.rs:58-80 | a new wave holds exactly the given bytes, for the pin and in the format given, under an unused identifier; a failure leaves the live waves unchanged |
| Pigpio.Hardware.WaveBusyWait | pigpio-rust/src/lib.rs:37-49 | a delay before every poll, all of them spent; Ok only after an idle poll, with the exact sum of the delays; timeout only after busy polls and only when that sum exceeds the timeout, which it did not before the last delay; steps are bounded by the timeout |
| Polling.MissedIff | cmd/iodin/src/mdb.rs:36-46 | a loop that looks at the clock until it is over a deadline can go on for ever exactly when it does not advance or one step reaches from the deadline past the wrap, given some latency and a deadline far enough ahead |
| Polling.LooksEnd | cmd/iodin/src/mdb.rs:180-197 | otherwise there are no more looks than ticks up to the deadline |
| Polling.NotMissedInStep | cmd/iodin/src/mdb.rs:180-197 | without latency the condition is not enough: with the usual step of 101 a stepped-over deadline is noticed one lap later |
| Mdb.WaitMissedIff | cmd/iodin/src/mdb.rs:178-198 | a wait for words can go on for ever exactly when the condition of `CanHang` holds of its deadline |
| Mdb.SendMissedIff | cmd/iodin/src/mdb.rs:31-50 | the same for a send |
| Mdb.WaitThatNeverEnds | cmd/iodin/src/mdb.rs:126-137 | with the tick 300 ms and 1 us before the wrap no deadline overflows, and the wait for the first word never times out |
| Mdb.DeadlinesFit | cmd/iodin/src/mdb.rs:126-138 | with the 300 ms timeout no deadline sum overflows, or comes within a margin of the wrap, unless a tick is that close already |
| Mdb.SendDeadlineIsAbsolute | cmd/iodin/src/mdb.rs:31-50 | arithmetic of `Enforced`: late by the tick at which the deadline was computed plus the gap between the two clock reads, and as intended exactly when both are zero; that the loops keep to `Enforced` is in `SendWait` and `Tx` |
| Mdb.SendTimeoutIsLate | cmd/iodin/src/mdb.rs:126-161 | unfolds what `Tx` ensures (`Timely`): a stuck send, of the request or of an answer, is reported only after the intended deadline plus that lateness, and within a poll of it |
| Mdb.TransactionEnds | cmd/iodin/src/mdb.rs:125-166 | a transaction whose deadlines are clear of the wrap ends within the allowed times, the ticks by which its sends are late, three or four polls and two calls for every word taken |
| Mdb.TrueDeadline | cmd/iodin/src/mdb.rs:178-198 | a tick over a deadline that did not overflow means that the true deadline has passed |
| Mdb.VerdictOfStream | cmd/iodin/src/mdb.rs:136-166 | a result decided by the device is the verdict on one pass over its word stream, whatever the reads, with the matching answer sent |
| Mdb.BareWordVerdict | cmd/iodin/src/mdb.rs:150-156 | a bare marked word gives success for 0x00, a refusal for 0xff and an invalid response for anything else, without data and without an answer |
| Mdb.HeardIsJudged | cmd/iodin/src/mdb.rs:136-166 | a transaction that does not time out waiting for words ends in a verdict on them, unless the machinery failed; with `Tx`, a device that has its reply ready is judged |
| Mdb.ReplyIsUsedUp | cmd/iodin/src/mdb.rs:136-166 | a successful transaction takes its reply with the word that ends it, and no more than the rest of a read beyond |
| Mdb.BusTraceSafety | cmd/iodin/src/mdb.rs:123-166 | the waves attempted are none, the request, or the request and one answer, 0x00 or 0xff, and which of them for each result and each timeout; the response never exceeds the delivered words |
| Mdb.IntactReplyDelivered | cmd/iodin/src/mdb.rs:136-165 | an intact block is delivered and acknowledged unless the machinery fails |
| Mdb.CorruptReplyReported | cmd/iodin/src/mdb.rs:136-165 | a block with exactly one value changed is refused with a checksum error and a NAK, unless the machinery fails |
| Mdb.GpioMdb.NextFrame | cmd/iodin/src/mdb.rs:116-123 | the frame theorem for the driver's own buffer at any point of a run |
| Mdb.GpioMdb.Open | cmd/iodin/src/mdb.rs:63-85 | opening sets the receive pin as input and the transmit pin as output, opens the reader at 9600 baud and nine bits, stops any transmission and creates the waves 0x00 and 0xff on the transmit pin, in this order; a failure at any point leaves no wave |
| Mdb.GpioMdb.Drop | cmd/iodin/src/mdb.rs:201-205 | dropping the driver stops transmission, closes the reader if that worked, and deletes exactly its two waves whether or not closing worked |
| Mdb.GpioMdb.BusReset | cmd/iodin/src/mdb.rs:94-103 | the transmit line is high for at least the requested time and at most two calls longer, and then low; an overlong duration touches nothing; a failure of the second write leaves it high |
| Mdb.GpioMdb.SendWait | cmd/iodin/src/mdb.rs:31-50 | exactly one wave is attempted; the calls in order, one look at the clock after every busy poll and a stop after the idle one; Ok only after an idle poll, timeout only on elapsed time over the argument, within a bounded time; polling ends unless the deadline can be missed |
| Mdb.GpioMdb.WaitReceive | cmd/iodin/src/mdb.rs:178-198 | one empty read of the receive pin for every look at the clock, and then a read that brings words, or a last look over the deadline; no timeout at or before the true deadline, and back within one poll after it; an eager device with words is always heard |
| Mdb.GpioMdb.Poll | cmd/iodin/src/mdb.rs:178-198 | one turn: a read of the receive pin, and a look at the clock exactly when it brought nothing |
| Mdb.GpioMdb.ScanBuffer | cmd/iodin/src/mdb.rs:139-147 | the in-place scan of one read continues the one-pass result |
| Mdb.GpioMdb.ReceiveRest | cmd/iodin/src/mdb.rs:139-149 | the nested receive loops end for every finite word stream with the one-pass result of what was delivered, within the deadline, a poll and two calls a word |
| Mdb.GpioMdb.Receive | cmd/iodin/src/mdb.rs:136-149 | the whole reception: one-pass result, exact panic condition, bounded discard, no timeout before the deadline in force has truly passed nor after anything but an empty read, an upper bound on its time, and no timeout at all for a device that has its reply ready |
| Mdb.GpioMdb.Conclude | cmd/iodin/src/mdb.rs:150-166 | the verdict and the answer for a complete reply, with the times of both; nothing is called for a bare control word |
| Mdb.GpioMdb.AwaitReply | cmd/iodin/src/mdb.rs:136-166 | reception and verdict together: whose deadline overflows or may be missed, no timeout before its time, and upper bounds on all of them |
| Mdb.GpioMdb.Transact | cmd/iodin/src/mdb.rs:125-166 | the timed part of a transaction: which deadlines overflow or may be missed, what was sent, after which moments it may report a timeout, and by when each phase is over |
| Mdb.GpioMdb.Tx | cmd/iodin/src/mdb.rs:105-176 | one transaction: live waves restored on every exit, panics exactly on bad lengths and overflowing deadlines, a receive timeout only after the true deadline computed last, a send timeout only after the enforced one, every phase over in bounded time (`InTime`), a wave for the transmit pin in the frame format and reads of the receive pin only, a receive timeout only after an empty read and never for a device that has its reply ready, history of the buffer kept |
| Wire.VarintRoundTrip | cmd/iodin/src/proto/iodin.rs:101-125 | every varint is read back with what follows it |
| Wire.VarintGroups | cmd/iodin/src/proto/iodin.rs:151-169 | byte i of a varint carries bits 7 i to 7 i + 6 of the number, with the top bit set on all bytes but the last |
| Wire.ReadVarintGroups | cmd/iodin/src/proto/iodin.rs:101-125 | any varint within the limit, canonical or not, is read as the sum of its seven-bit groups by weight |
| Wire.Fixed32Bytes | cmd/iodin/src/server.rs:59 | byte i of a length prefix is n / 256^i modulo 256 |
| Wire.Congruent | cmd/iodin/src/proto/iodin.rs:101-125 | enum numbers are sign-extended modulo 2^64 and truncated modulo 2^32 |
| Wire.VarintSizeIsLength | cmd/iodin/src/proto/iodin.rs:129-149 | the size by magnitude is the encoded length |
| Wire.RecordsRoundTrip | cmd/iodin/src/proto/iodin.rs:101-125 | any sequence of records is read back exactly |
| Wire.ReadRecordsAppend | cmd/iodin/src/proto/iodin.rs:101-125 | after well-formed records, the rest reads as if alone |
| Messages.MergeRequestAppend | cmd/iodin/src/proto/iodin.rs:101-125 | merging is a homomorphism on concatenated encodings |
| Messages.MergeResponseAppend | cmd/iodin/src/proto/iodin.rs:363-384 | the same for responses |
| Messages.RequestLastWins | cmd/iodin/src/proto/iodin.rs:101-125 | a merged request holds the last occurrence of each field, or what it held |
| Messages.RequestPermutation | cmd/iodin/src/proto/iodin.rs:101-125 | permuting encoded fields with distinct tags changes no decoded message |
| Messages.ResponseLastWins | cmd/iodin/src/proto/iodin.rs:363-384 | the same for responses, which are refused exactly when some error text is not UTF-8 |
| Messages.RequestRoundTrip | cmd/iodin/src/proto/iodin.rs:101-169 | a written request merges into any message as an overlay and into a fresh one as itself, unknown and negative enum numbers included |
| Messages.ResponseRoundTrip | cmd/iodin/src/proto/iodin.rs:363-422 | the same for responses |
| Messages.ValidUtf8Iff | cmd/iodin/src/proto/iodin.rs:363-384 | the texts accepted are exactly the encodings of Unicode scalar values |
| Codec.RequestBytes | cmd/iodin/src/proto/iodin.rs:151-169 | a request byte by byte: tags 08, 10, 18, 20 and 2a, numbers in groups, payload as it is, nothing for default values |
| Codec.ResponseBytes | cmd/iodin/src/proto/iodin.rs:407-422 | the same for a response: tags 08, 10, 1a and 22 |
| Codec.UnknownFieldSkipped | cmd/iodin/src/proto/iodin.rs:101-125 | a field of an unknown number is skipped by its wire type: 0 a varint, 1 eight bytes, 2 a length and as many, 5 four bytes |
| Codec.WireTypeRefused | cmd/iodin/src/proto/iodin.rs:101-125 | wire types 3, 4, 6 and 7, and field number zero, are refused |
| Codec.Request.MergeFrom | cmd/iodin/src/proto/iodin.rs:101-125 | the parsing loop computes the merge and consumes the whole window, or fails exactly on malformed input |
| Codec.Request.ComputeSize | cmd/iodin/src/proto/iodin.rs:129-149 | the computed size is the number of bytes written |
| Codec.Request.WriteTo | cmd/iodin/src/proto/iodin.rs:151-169 | appends exactly the encoding |
| Codec.Response.MergeFrom | cmd/iodin/src/proto/iodin.rs:363-384 | as for requests, failing also on text that is not UTF-8 |
| Codec.Response.ComputeSize | cmd/iodin/src/proto/iodin.rs:388-405 | the computed size is the number of bytes written |
| Codec.Response.WriteTo | cmd/iodin/src/proto/iodin.rs:407-422 | appends exactly the encoding |
| Commands.StatusOfCommand | cmd/iodin/src/server.rs:66-138 | a command is answered with status 1 exactly when it succeeds, else with 6 when it reached the hardware and 2 when it did not; the bus is open after 1 exactly on success, on the pins given; a transmission that is answered fitted a block; text and data are never both answered |
| Commands.TextOfRefusal | cmd/iodin/src/server.rs:66-138 | the text of each refusal by command number, and the data of an echo |
| Commands.BareWordJudged | cmd/iodin/src/mdb.rs:150-156 | of the bare control words only 0x00 makes a transmission succeed, with no data |
| Commands.BadLengthIsNeverAnswered | cmd/iodin/src/server.rs:114-134 | unfolds the command relation: a transmission over an open bus that does not fit a block has no answer and meets the condition for a panic; that it does panic, whatever the hardware does, is in `Server.Server.Exec` |
| Commands.CalmIsAnswered | cmd/iodin/src/server.rs:66-138 | every other command is answered as long as the wait step is positive, no deadline is computed close to the wrap, and the answer fits its prefix |
| Commands.AnswerFits | cmd/iodin/src/server.rs:59-61 | every answer fits its length prefix, unless the device has 2^29 words left |
| Frames.ResponseFramesDecode | cmd/iodin/src/server.rs:59-61 | written response frames decode to the responses in order |
| ServerSpec.FrameStreamStops | cmd/iodin/src/server.rs:30-64 | over complete frames with a STOP, the run serves the requests up to the first STOP, in order, and leaves the rest unread; it ends earlier only at the next request, if that panics or has a deadline that can be missed |
| ServerSpec.FrameStreamEnds | cmd/iodin/src/server.rs:30-64 | without a STOP all frames are served and the run ends with the end of the input, with the same exception |
| ServerSpec.FrameStreamCompletes | cmd/iodin/src/server.rs:30-64 | in calm circumstances the run gives one answer per frame up to the STOP, or to the end, and panics iff it comes to a transmission over an open bus that does not fit a block |
| ServerSpec.OpenIffLastOpenOk | cmd/iodin/src/server.rs:66-138 | in every run the bus is open exactly when the latest command 1 was answered with status 1, and then on the pins it gave; every status is 1, 2 or 6 |
| ServerSpec.LaterWords | cmd/iodin/src/server.rs:114-134 | a later exchange finds a suffix of the words that an earlier one left |
| Server.Server.ExecOpen | cmd/iodin/src/server.rs:79-98 | the driver is opened with the first byte as receive pin and the second as transmit pin, after the old one was dropped; whatever the outcome the old driver is gone; the live waves are those of the new one, or none; words not yet read may be lost |
| Server.Server.ExecReset | cmd/iodin/src/server.rs:99-113 | the transmit line is high for the requested milliseconds and then low; a refusal is an overlong duration, with nothing touched, or a hardware fault, and answers the text of that error |
| Server.Server.ExecTx | cmd/iodin/src/server.rs:114-134 | the data answered is the accepted verdict on the device's stream, which is used up; a failure answers the text of its error, which is the verdict the words deserve if it is one; the waves sent are the request frame, with its marks told from the reads before, and one answer, over the driver's pins; panics exactly, and hangs only, under the driver's conditions |
| Server.Server.Exec | cmd/iodin/src/server.rs:66-138 | in numbers of the wire: 1 opens on the pins given, 2 pulses the transmit line, 3 transmits, 100 stops, anything else is an input error that leaves the hardware alone; status 1 on success, 6 or 2 on failure; the command relation, wave conservation, the frame sent and its marks, exactly which commands panic, and when alone one may not end |
| Server.Server.ReadRequest | cmd/iodin/src/server.rs:41-44 | the body read is as long as the four bytes spell, or as the input lasts |
| Server.Server.WriteResponse | cmd/iodin/src/server.rs:59-61 | writes exactly one response frame, the length in four bytes from the least significant, or panics exactly when the size does not fit |
| Server.Server.ServeOne | cmd/iodin/src/server.rs:36-62 | one turn of the loop: one exchange, one frame out, input consumed by exactly one frame when it parses, the text of the parse error when it does not; or the request panics under its exact condition, or does not end, which takes a deadline that can be missed |
| Server.Server.Run | cmd/iodin/src/server.rs:30-64 | every run is a chain of exchanges, writes exactly their frames and conserves waves throughout; it ends by a STOP, by the end of the input, at a request that panics under its exact condition, or is left at one whose deadline can be missed |
| Client.ReceiveFrame | client/go-iodin/iodin.go:117-142 | a call takes a whole response frame exactly when its body is at most 256 bytes, and then yields it laid over the caller's message |
| Client.NextTakesBodyForLength | client/go-iodin/iodin.go:117-130 | after a longer one the next call reads the first four body bytes as its length, and ends on that, or reads on in the middle of the body |
| Client.NextFailsToo | client/go-iodin/iodin.go:117-130 | for the responses this server writes that length is 2^31 or more: the next call fails where int has 64 bits and panics where it has 32 |
| Client.NoErrorIff | client/go-iodin/iodin.go:117-142 | a call returns without an error exactly when a whole message parsed, or when the length read came up short |
| Client.ReceiveByLength | client/go-iodin/iodin.go:117-142 | how every call ends, by the length that the four bytes spell and what follows: a reply, one of the four errors, or a panic |
| Client.Client.SendRequest | client/go-iodin/iodin.go:103-115 | writes exactly the request frame: the length in four bytes from the least significant, and the encoding |
| Client.Client.ReceiveReply | client/go-iodin/iodin.go:117-142 | the reads through one reused buffer compute the reply and leave the rest of the pipe, for either width of int |
| Client.Client.DecRef | client/go-iodin/iodin.go:88-98 | while the counter counts the references out, the caller must close exactly when its reference was the last, and only a call without a reference panics; a matched call keeps the count right |
| Client.Client.IncRef | client/go-iodin/iodin.go:84-86 | the counter goes on counting the references out, up to 2^31 - 1 of them |
| Client.RefCountExact | client/go-iodin/iodin.go:84-98 | under every interleaving of matched references the count is the number of holders, never panics, and each return to zero gives exactly one close, which is due until it is made |
| Client.UnmatchedDecrementPanics | client/go-iodin/iodin.go:97 | a decrement with nothing held panics |
| Session.StepKeepsLockstep | client/go-iodin/iodin.go:100-143 | a step of client, server or pipes leaves lockstep exactly when it reads the length of a response over 256 bytes |
| Session.LockstepExactly | client/go-iodin/iodin.go:100-143 | in every reachable state, under every interleaving, the session is in lockstep exactly when every response whose length was read has at most 256 bytes; otherwise the calls before the first longer one returned correctly, that one did not return, and the next one fails, or panics on 32 bits, as soon as it reads |
| Session.SessionTheorem | client/go-iodin/iodin.go:100-143 | each call up to the first long response returns what the server executed for its request, on the bus as the exchange before left it, from a closed bus on; at most one call in flight, empty pipes between calls |
| Session.CallReturnsDeviceReply | client/go-iodin/iodin.go:100-143 | a transmission that returns OK over real hardware fitted a block, followed a successful MDB_OPEN whose pins it used, and returns the reply that stood next in the device's words: the bytes of an intact block if one stood there, and a block with one word changed cannot have |
| Session.RepliesAreNotShared | client/go-iodin/iodin.go:100-143 | of two transmissions that returned OK over real hardware, the later one's reply stands wholly behind the earlier one's: no reply is returned twice |
| Session.BreaksOffExactly | cmd/iodin/src/server.rs:36-62 | the server of a session breaks off at the request before it exactly when `Breaks` holds there, and never in calm circumstances; for a loop that does not end `Breaks` is a necessary condition |
| Session.AnswerableIffFits | cmd/iodin/src/server.rs:66-138 | a request has some answer exactly when it is no transmission over an open bus that does not fit a block |
| Session.NeverStuck | cmd/iodin/src/server.rs:36-62 | while a call is in flight and the server runs or has answered, a step is possible; it is only breaking off exactly when the request before the server is a transmission that does not fit a block |
| Session.StepsAreBounded | client/go-iodin/iodin.go:100-143 | a session has no more steps than the lengths of its request frames allow for, in lockstep or out of it |
| Session.EveryCallReturns | client/go-iodin/iodin.go:100-143 | where only starting a call is possible no call is in flight, unless the server stopped or broke off before serving it |
| Session.RunsUntil | cmd/iodin/src/server.rs:30-64 | the server of a session runs until it has served a STOP or has broken off |
| Session.LongResponseBreaksLockstep | client/go-iodin/iodin.go:127-129 | a response over 256 bytes ends its call without a reply and leaves its body in the pipe |
| Session.LongDataReachable | client/go-iodin/iodin.go:127-129 | from the start, an echo or a device reply of 252 bytes, which is used up, leads out of lockstep |

## Left out

- Group wire types: a start-group or end-group tag is an error here; the runtime library skips groups.
- Unknown fields: they are skipped and not stored, so writing them back is not modelled.
- The runtime library behind the generated codec is not part of this repository. A 64-bit varint read as a 32-bit field keeps its low 32 bits, as the encoding specification says. After a failed read the position is left anywhere ahead. A body cut short by the end of the input is parsed as far as it goes.
- The Go protobuf library is not part of this repository either. Its unmarshalling is taken to merge into the message it is given, and the wrapping of a missing error is taken to give no error.
- Messages of 4 GiB and more: the codec lemmas require fields shorter than 2^32 bytes. The server panics on a response that long.
- Error texts are an arbitrary function of the error, of at most 1000 bytes plus four for every received byte that a checksum error spells out; only the fixed texts of the server are spelled out.
- Failing or partial writes to the output pipe, process start, signals and the kill timer.
- Client reads are assumed to deliver all that is there of a frame, and a response frame to be flushed at once.
- Mdb.GpioMdb.Tx: the bound on a transaction is in the words it takes, because the receive deadline is looked at only when a read brings nothing, so a device that goes on talking goes on being read.
- Commands.Breaks, and with it ServeOne, Run and BreaksOffExactly: for an unfinished loop the condition is necessary; it is proved sufficient for loops whose calls have some latency and whose deadline is at least waitStep * (waitStep + 1) us ahead.
- Closing or opening the serial reader may lose any number of words; while it stays open none is lost.
- A panic of the client is reported as the result of the call, from which the caller may recover and call again; a client that does not recover makes no more calls.
- After the server broke off nothing more happens in a session; that a client would then read the end of its pipe is not modelled.
- Client.Client.DecRef: closing is reported to the caller as an event; the STOP call it makes is the same call as any other.
- Session.SessionTheorem: calls are not concurrent with each other, because the client takes no lock.
- The capacity assertion on the response vector: capacity is not a property of a value, and the one caller allocates it.
- Deleting a live wave is assumed to succeed.
- The calls that set pin modes, open and close the serial reader and stop a transmission are recorded with their arguments; their electrical effect is not modelled.
- Serial pins left open when opening fails half-way.
- Logging, environment variables, command-line start-up, reflection, text formatting and build scripts.
