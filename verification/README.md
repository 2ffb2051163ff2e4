# A verified model of vogod's protocol core

vogod reads and writes the data points of a heating controller over its Optolink interface. This
project models the four layers between a data point and the wire, and proves what each keeps and how
they compose.

| layer | modules |
|---|---|
| wire: telegrams, checksum, byte collection, the KW/P300 state machine | `Bytes`, `Telegram`, `Link`, `Runs`, `Engine`, `EngineSafety`, `EngineResults`, `Refinement`, `Progress`, `Callers` |
| command layer: chunks of 32 bytes, cache, block-wise `VRead` and `VWrite` | `Commands`, `BlockLoop`, `Cache`, `Currency`, `BlockAccess`, `RoundTrip`, `Served`, `PartialWrites`, `Interleaving` |
| the whole stack | `EndToEnd`, `Concurrency` |
| codecs: bit fields, scaled numbers, durations, BCD dates, switching times | `Bits`, `Events`, `Codec`, `Calendar`, `Codecs` |
| description files: choice of the device, check of an event description | `Selection` |

Code that changes things step by step is written as methods over mutable fields or arrays
(`Engine.VitoFsm`, `Commands.Device`, the encoders) and proved against functions (`Next`, `RunCmds`,
`Encode`, ...); the theorems are then about those functions, for every run.

How the layers stack up:

1. `Refinement.ExchangeRefinesMemory`: from its real start state the engine and a controller that
   speaks the same framing act like an atomic memory, command by command; `Progress` shows that every
   list of commands is in fact served.
2. `Cache.EngineIsFaithful` turns this into the assumption of the command layer: every log of
   exchanges that the engine carries is *faithful*, that is, each success is an atomic access.
3. `BlockAccess.CommandRefinesMemory`: under a fixed partition into blocks of at most 32 bytes the
   cache never shows: a read without error, hit or miss, is the current memory. `Currency` says exactly
   when a hit is current without any partition.
4. `RoundTrip.WriteThenRead`: after `VWrite` every bit that the description does not assign to the
   event is unchanged, and the next `VRead` goes past the cache and yields the value written.
5. `Interleaving.NoLostUpdates`: with any number of concurrent readers and writers the memory is what
   the finished writes make of it one after another in the order of the write lock.
6. `EndToEnd.WriteThenReadOverTheWire` and `Concurrency.NoLostUpdatesOverTheWire` put all of this
   together: 4. and 5. over runs of the engine, about the controller's own memory, with no assumption
   about faithful exchanges left.

## What the environment does

- Time is an integer clock in the environment of a pass or a command. Waiting 40 ms for a byte is a
  `Silence` event on the link, the closing of the byte channel a `Closed` event, and a link that has
  nothing more to offer stays silent.
- `Env` (engine) and `Turn` (command layer) hold everything the surroundings decide: arriving bytes,
  write failures, which case of a select fires, polled commands, replies. Theorems quantify over them.
- Failures of Go at run time (index out of range) are outcomes: `Panic`, `Crashed`, `Panicked`.
- Command IDs are numbers; nothing assumes that they differ.
- Addresses, lengths and positions wrap where Go's `uint8` and `uint16` do.

## Where the code does not do what it seems to

- The test before writing SOH looks at a variable that was overwritten just before
  (`pkg/vogo/fsm.go:340`, `436`), so SOH precedes every KW telegram.
- The branch that should fall back to KW (`pkg/vogo/fsm.go:509-512`) is never taken: `ModeIsFixed`.
- A command that P300 cannot encode is never answered (`pkg/vogo/fsm.go:554-559`): `UnencodableStarves`;
  `AnsweredIff` says exactly which commands are answered.
- A telegram whose length byte is below 5 can make the parser index past its end; `CrashExact` says
  for which length bytes.
- A write of more than 32 bytes sends all its arguments again to addr + 32 and so on
  (`pkg/vogo/commands.go:78-113`); `WriteIsStoreIff` says when a write is a store.
- A write leaves one byte, its count, in the cache, with a time that makes it invalid. Only the first
  address of the range is invalidated, so the other bytes may be served stale: `StaleHit`;
  `HitIsCurrentIff` says exactly when a hit is current.
- `VWrite` ignores the errors of its write phase: `SilentFailure`; `SilentWriteIff` says exactly when
  the value has been stored all the same.
- The loops over the blocks count in `uint8` and may step over the end for ever: `LoopsForEver`;
  `LoopLeavesIff` says for which descriptions they leave.
- A number that does not fit its bit field spills into the neighbouring bits (`FieldFrame`), the date
  encoders write behind a shorter date (`DateFrame`), a value list without a length writes two bytes;
  `FrameIff` says for every codec exactly when only the event's own bits change.
- A nibble at a bit position other than 0 and 4 is read as a whole byte and never written:
  `NibblePositions`.
- Behind byte 255 a value list writes byte 0 before it fails: `ValueListEncode`.
- An open interval displaces a bounded one in the choice of a description: `OpenDisplacesBounded`;
  `SelectionUndominatedIff` says exactly which lists are safe.
- The length check of an event description adds in `uint8`: `LengthCheckIff`.
- An error history entry spans nine bytes, of which the date uses seven and the last is ignored.

## Model

| member | source | states |
|---|---|---|
| Bytes.AddressRoundTrip | pkg/vogo/codec.go:634-635 | the two address conversions invert each other for all 65536 addresses |
| Telegram.Crc8 | pkg/vogo/fsm.go:142-148 | the wrapping loop computes the byte sum modulo 256 |
| Telegram.SumConcat | pkg/vogo/fsm.go:142-148 | the checksum's sum is additive over concatenation |
| Telegram.RequestRoundTrip | pkg/vogo/fsm.go:154-188 | a device that knows only the framing recovers the request from the telegram exactly when it is a read or has at most 250 argument bytes |
| Telegram.KwRequestRoundTrip | pkg/vogo/fsm.go:154-188 | the same for KW requests, exactly for reads and for at most 255 argument bytes |
| Telegram.ParserExact | pkg/vogo/fsm.go:586-659 | for a length byte of at least 5 the accepted telegrams are exactly those an answer builder produces for the pending command and count; the body is the payload, for a write the count; no index panic |
| Telegram.AnswerParses | pkg/vogo/fsm.go:586-659 | parsing inverts building, for every payload and any sequence bits |
| Telegram.SingleByteCorruption | pkg/vogo/fsm.go:624-637 | changing one byte behind the length byte of a telegram that was answered is always refused |
| Telegram.CrashExact | pkg/vogo/fsm.go:610-657 | the length bytes for which some telegram makes the parser panic, as an equivalence |
| Link.CollectReads | pkg/vogo/fsm.go:238-273 | byte collection returns exactly the next n bytes in order, or on an error strictly fewer; bytes are lost only when the channel closes |
| Link.CollectExact | pkg/vogo/fsm.go:238-273 | it succeeds if and only if the n-th byte arrives before the channel closes and within the allowance of silences |
| Link.CollectPrompt | pkg/vogo/fsm.go:238-273 | with at most two silences on the way the next n bytes are delivered and all later ones stay on the link in order |
| Link.PacedTake | pkg/vogo/fsm.go:238-273 | of a reply whose pieces each come in time, a collection takes exactly its own piece and leaves the others in time |
| Link.PacedIff | pkg/vogo/fsm.go:238-273 | whatever the timing of a reply, it is collected piece by piece if and only if each piece comes in time for its collection |
| Engine.VitoFsm.constructor | pkg/vogo/fsm.go:220-236 | the start state, for either value of the P300 flag |
| Engine.VitoFsm.WaitForBytes | pkg/vogo/fsm.go:238-273 | the accumulating loop terminates and refines the specification of byte collection |
| Engine.VitoFsm.Step | pkg/vogo/fsm.go:340-676 | one pass of the loop changes all fields and the trace as the transition function says; what that function does with bytes is stated in `EngineResults`, `EngineSafety` and `Refinement` |
| Engine.VitoFsm.Loop | pkg/vogo/fsm.go:335-677 | the loop refines the run of the transition function over any environment |
| EngineSafety.NextSound | pkg/vogo/fsm.go:340-676 | the invariant of conversation, session, mode and failure count is inductive over every pass, in both modes |
| EngineSafety.RequestsConserved | pkg/vogo/fsm.go:395-497 | over every run delivered IDs are those of a prefix of the accepted commands, and one command is unanswered exactly when `hasCmd` or the state is recvKw |
| EngineSafety.WrittenAtMostOnce | pkg/vogo/fsm.go:443-452 | every telegram written is that of the accepted command next to be answered, and no command's telegram is written twice |
| EngineSafety.SessionTrace | pkg/vogo/fsm.go:498-517 | what acceptance by the session automaton means for a trace, in terms of positions in the trace |
| EngineSafety.SessionIsSafe | pkg/vogo/fsm.go:547-673 | over every run the automaton accepts the output; before every P300 telegram the last synchronisation since the last EOT was answered by ACK; between two ACK/NAK replies there is a telegram |
| EngineSafety.ModeIsFixed | pkg/vogo/fsm.go:275-295 | over every run the P300 flag never changes, the states of the other mode and the resetP300 states are never entered, and the failure count is at most 100 and zero outside the reset cycle |
| EngineSafety.CycleEnds | pkg/vogo/fsm.go:357-385 | an unbroken reset cycle is bounded by the failures still allowed |
| EngineSafety.AnsweredWithinThree | pkg/vogo/fsm.go:547-659 | from sendP300 an encodable command is answered within three passes, or the machine stops |
| EngineSafety.UnencodableStarves | pkg/vogo/fsm.go:554-559 | an unencodable command is never answered and no other one is accepted, however long the run |
| EngineResults.RecvSucceedsIff | pkg/vogo/fsm.go:586-659 | on any link, a pass in recvP300 delivers a success if and only if the start byte, a length and the tail of an answer to the pending command with the pending count arrive in time; it carries the payload, for a write the count, and is confirmed |
| EngineResults.BadAnswerIsDenied | pkg/vogo/fsm.go:624-673 | a telegram that is no answer to the pending command is an error for it and leads to NAK; one with a wrong count only is an error, too, but leads to ACK |
| EngineResults.BrokenAnswerResets | pkg/vogo/fsm.go:590-622 | an answer that breaks off or has a wrong start byte is an error for its command and leads to EOT; if nothing came the machine stops |
| EngineResults.AckDeliversNoSuccess | pkg/vogo/fsm.go:560-585 | before the answer no success is delivered; only ACK leads on, and NAK or another byte is an error for the command |
| EngineResults.KwSucceedsIff | pkg/vogo/fsm.go:459-497 | a pass in recvKw delivers a success if and only if as many bytes as expected come, for a write a zero, and the command channel is open |
| EngineResults.OtherStatesDeliverNone | pkg/vogo/fsm.go:340-676 | no other state delivers a success |
| EngineResults.SuccessesAreEarned | pkg/vogo/fsm.go:340-676 | over every run, in both modes, each success answers the oldest command without an answer, and just before it the bytes of an answer to that command with that count were collected; its body is what they carry |
| EngineResults.ResetGoesOn | pkg/vogo/fsm.go:363-385 | after a reset ENQ and ACK lead to idle, any other byte to the next EOT, a hundred times in a row and no more |
| EngineResults.IdleGoesOn | pkg/vogo/fsm.go:395-404 | a call leads from idle to the synchronisation, any other byte to EOT |
| EngineResults.SyncIsRepeated | pkg/vogo/fsm.go:505-517 | only ACK answers a synchronisation; after another byte it is written again |
| EngineResults.StrayByteResets | pkg/vogo/fsm.go:524-537 | a byte that comes while the machine waits for commands is dropped and leads to EOT |
| EngineResults.StaleSessionIsRenewed | pkg/vogo/fsm.go:518-523 | more than ten seconds after the last synchronisation the next one is written before anything else |
| EngineResults.SentInFreshSession | pkg/vogo/fsm.go:518-546 | a command is only ever sent within ten seconds of the last synchronisation |
| EngineResults.KwWaitsForCall | pkg/vogo/fsm.go:406-458 | in KW a command is sent within a second and a half of a call or after the next one, SOH first |
| EngineResults.KwIdles | pkg/vogo/fsm.go:428-434 | in KW an idle machine waits from call to call and resets the line after any other byte |
| EngineResults.KwRefusesUnencodable | pkg/vogo/fsm.go:443-458 | in KW a command that cannot be encoded is answered with an error and nothing is sent |
| EngineResults.EndsAtOnce | pkg/vogo/fsm.go:325-349 | told to end, or with a failed link, the machine stops without another word |
| Refinement.RequestServed | pkg/vogo/fsm.go:154-188 | the controller understands the telegram, serves it, and its answer carries the result the engine expects |
| Refinement.ReadsAnswer | pkg/vogo/fsm.go:586-659 | the engine consumes exactly the answer and delivers the result that is due |
| Refinement.SpecMeaning | pkg/vogo/fsm.go:518-659 | a trace that the atomic specification reads to its end delivers the atomic results in order |
| Refinement.TickKeeps | pkg/vogo/fsm.go:340-676 | every pass keeps the simulation relation between engine, link and controller on one side and the atomic memory on the other, and outside the wait state brings the machine one pass nearer to it |
| Refinement.ExchangeRefinesMemory | pkg/vogo/fsm.go:340-673 | from the real start state, for any commands that fit and any timing that brings each piece of a reply within the allowance of its own collection, the machine never stops, results are those of an atomic memory in order, memory agrees whenever nothing is pending, and the link is empty when nothing is outstanding |
| Refinement.AnswerTimingIff | pkg/vogo/fsm.go:560-659 | whatever the timing of an answer, its result is delivered if and only if each piece comes in time; otherwise the machine stops or an error is delivered for the command |
| Refinement.HandshakeTimingIff | pkg/vogo/fsm.go:395-517 | the machine goes on from a synchronisation or an idle line if and only if the byte it waits for comes in time |
| Refinement.ResetTimingIff | pkg/vogo/fsm.go:363-404 | the same for the two calls after a reset |
| Progress.WaitIsReached | pkg/vogo/fsm.go:340-676 | whatever moves happen, a fixed number of passes, at most five, leads back to the wait state |
| Progress.EveryListIsServed | pkg/vogo/fsm.go:340-676 | every list of fitting commands is accepted and served in order, in five passes to connect and five for each command |
| Progress.AnyCommandIsAccepted | pkg/vogo/fsm.go:518-546 | after any such list any further command is accepted, whether it can be encoded or not |
| Progress.FittingIsAnswered | pkg/vogo/fsm.go:547-673 | an accepted fitting command is answered by its atomic result, whichever four moves happen |
| Progress.AnsweredIff | pkg/vogo/fsm.go:547-659 | in the closed loop an accepted command is ever answered if and only if it can be encoded and, if it is a write, has at most 250 bytes |
| Callers.PassEffects | pkg/vogo/fsm.go:395-659 | what one pass does with commands and results: accept when none is pending or one is delivered in the same pass, deliver only the pending one's |
| Callers.HappenKeeps | pkg/vogo/commands.go:49-95 | the product invariant of callers, lock, channels and engine survives every event |
| Callers.CallersAndEngine | pkg/vogo/commands.go:49-95 | with any number of callers at most one is past its send, a blocked result finds exactly that caller, no result reaches a caller with another ID, and the poll in recvKw never finds an offer |
| Bits.SameBits | pkg/vogo/codec.go:32-110 | a number is determined by its bits |
| Codec.FieldReadsBack | pkg/vogo/codec.go:32-110 | a bit field reads back the bits of the number that fit into it |
| Codec.FieldIs | pkg/vogo/codec.go:40-45 | a bit field is its byte divided by 2^position, modulo 2^width |
| Codec.TruncTowardZero | pkg/vogo/codec.go:63-68 | fractions are cut off towards zero |
| Codec.FieldFrame | pkg/vogo/codec.go:69-97 | the other bits of the byte survive for every byte if and only if the number fits the field |
| Codec.ValueListEncode | pkg/vogo/codec.go:55-110 | the in-place encoder refines its specification, with errors, panics and what a panic leaves behind |
| Codec.ValueListReadsBack | pkg/vogo/codec.go:32-110 | what any encoded number reads back as, for fields, bytes and words |
| Codec.ValueListValue | pkg/vogo/codec.go:32-53 | what a value list decodes, in arithmetic on the bytes: the field, the byte, or the little-endian word |
| Codecs.IntegerReadsBack | pkg/vogo/codec.go:32-110 | a value list reads back the integer that was written if its place tells that many numbers apart, and its remainder otherwise |
| Codec.FloatIsWritten | pkg/vogo/codec.go:63-68 | of a float a value list gets the integer part |
| Codecs.IntegerIsFloat | pkg/vogo/codec.go:63-213 | an integer and the same number as a float are encoded alike by every codec |
| Codec.PutRaw | pkg/vogo/codec.go:228-289 | the in-place writer refines the digits or nibble in place, for every width and byte order |
| Codec.RawValue | pkg/vogo/codec.go:130-172 | what a raw number is: the event's bytes least significant first, most significant first for the two parameters that say so, in two's complement exactly for the signed parameters |
| Codec.NibbleValue | pkg/vogo/codec.go:133-145 | a nibble is the high half of its byte at position 0, the low half at 4 |
| Codec.RawPlaced | pkg/vogo/codec.go:228-289 | whatever raw number is written, the bytes spell its remainder in the same order |
| Codec.DivMulEncodeInPlace | pkg/vogo/codec.go:177-289 | the scaled-number encoder refines its specification: clamp, scale, truncate, write |
| Codec.RawReadsBack | pkg/vogo/codec.go:119-289 | every raw number in range reads back, for every width, sign, byte order and nibble |
| Codec.RawWritesBack | pkg/vogo/codec.go:119-289 | writing back what was read changes nothing |
| Codec.NibblePositions | pkg/vogo/codec.go:119-289 | nibbles round-trip if and only if their bit position is 0 or 4 |
| Codec.ScaledClose | pkg/vogo/codec.go:119-289 | decode after encode differs from the border-clamped value by less than one step |
| Codec.ScaledExact | pkg/vogo/codec.go:119-289 | a value that raw * factor + offset spells, within the borders, is written as that raw number and read exactly |
| Codec.WrittenInside | pkg/vogo/codec.go:217-289 | every value is written within one step of itself, or of the border it lies beyond |
| Codec.ScaledFixed | pkg/vogo/codec.go:119-289 | encode after decode leaves the buffer as it is if the value lies within the borders |
| Calendar.DecodeSeconds | pkg/vogo/codec.go:425-441 | the shifting loop computes the little-endian value modulo 2^64 |
| Calendar.EncodeSeconds | pkg/vogo/codec.go:443-471 | the in-place loop writes the base-256 digits and nothing else |
| Calendar.SecondsReadBack | pkg/vogo/codec.go:425-471 | decode after encode is the number modulo 256^n, other bytes untouched |
| Calendar.SecondsWriteBack | pkg/vogo/codec.go:425-471 | encode after decode leaves the buffer as it is, up to eight bytes |
| Calendar.NanosecondsFit | pkg/vogo/codec.go:425-441 | the multiplication to nanoseconds stays inside int64 for every buffer if and only if there are at most four bytes |
| Calendar.BCDRoundTrip | pkg/vogo/codec.go:627-632 | a number survives the conversion to BCD and back if and only if it is below 160 |
| Calendar.PutDate | pkg/vogo/codec.go:341-344 | the four date bytes are written in place |
| Calendar.DateTimeEncode | pkg/vogo/codec.go:318-354 | success exactly if eight bytes fit, and then those eight bytes and no others |
| Calendar.DateOnlyEncode | pkg/vogo/codec.go:372-416 | success exactly if four bytes fit, and then up to eight bytes as far as the buffer reaches |
| Calendar.DateTimeReadsBack | pkg/vogo/codec.go:298-354 | date and time read back field by field, each through BCD, for any fields |
| Calendar.ProperIsRestored | pkg/vogo/codec.go:627-632 | every proper date and time goes through BCD unchanged |
| Calendar.BCDDigits | pkg/vogo/codec.go:630-632 | a number below 100 is written with its two decimal digits |
| Calendar.DateFromDigits | pkg/vogo/codec.go:298-307 | which digits of which byte make up which field of a decoded date; fewer than four bytes are rejected |
| Codecs.DateLiesInDigits | pkg/vogo/codec.go:318-416 | an encoded date lies in the event's bytes field by field, two digits each: century, year, month, day, weekday with Sunday as 7, time or zeroes |
| Calendar.DateReadsBack | pkg/vogo/codec.go:363-416 | the date reads back with midnight for the time, for lengths 4 to 8 |
| Calendar.DateFrame | pkg/vogo/codec.go:372-416 | the date-only encoder stays within its own bytes in every buffer of a size if and only if it has eight of them or the buffer ends there |
| Calendar.SwitchesMaximal | pkg/vogo/codec.go:521-546 | the decoded chunk is the longest run of pairs without 255, each byte as hours in its high five bits and tens of minutes below |
| Calendar.MappingTime53Decode | pkg/vogo/codec.go:521-550 | for buffers of any length the loops in `uint8` arithmetic yield one list per chunk, never leave the buffer, and reject or panic exactly on the block factors the specification says |
| Calendar.ChunkIsSlice | pkg/vogo/codec.go:535-546 | in buffers of at most 255 bytes no index wraps, so the chunks are the slices of the buffer |
| Calendar.TimesOfChunks | pkg/vogo/codec.go:525-550 | one list per chunk of equal size, each that of its slice; when the buffer is rejected and when the factor panics |
| Calendar.ErrorsAre | pkg/vogo/codec.go:607-619 | one entry for every nine bytes begun, with the kind and the date behind it, for buffers whose last entry suffices for the date, and a panic for the others |
| Codecs.EncodeInPlace | pkg/vogo/codec.go:55-471 | the dispatch over codecs refines the specification, and says what every failure leaves in the buffer |
| Codecs.FrameIff | pkg/vogo/codec.go:55-471 | for every codec and buffer size the bits that the description does not assign to the event survive in every buffer if and only if the encoder stays inside its bytes and bits |
| Codecs.ReadsBack | pkg/vogo/codec.go:32-471 | for every codec a representable value reads back |
| Codecs.EncodeFailsIff | pkg/vogo/codec.go:55-471 | which values and buffers each encoder rejects and where it indexes out of range |
| Codecs.DecodeFailsIff | pkg/vogo/codec.go:32-619 | the same for the decoders |
| Commands.Device.constructor | pkg/vogo/device.go:131-145 | an empty cache |
| Commands.Device.GetCache | pkg/vogo/commands.go:12-35 | finds the range exactly if every byte is there and valid; the time returned is the oldest one |
| Commands.Device.Exchanges | pkg/vogo/commands.go:72-116 | the chunk loop: its exchanges, its result, the cache it leaves, and how it ends early |
| Commands.Device.Keep | pkg/vogo/commands.go:96-104 | what one result does to the cache |
| Commands.Device.Process | pkg/vogo/commands.go:60-116 | a hit, or the exchanges of the command |
| Commands.Device.RawCmds | pkg/vogo/commands.go:46-119 | results, log and cache of a list of commands, with a lost engine and a closed channel |
| Commands.Device.RawCmd | pkg/vogo/commands.go:38-41 | the first result, which always exists |
| Commands.Device.ReadBlocks | pkg/vogo/commands.go:147-165 | the block loop in `uint8`, for whatever block factor, refines reading round after round until the loop leaves or a block fails |
| Commands.Device.WriteBlocks | pkg/vogo/commands.go:213-218 | the write loop, for whatever block factor, refines writing round after round, errors ignored, until it leaves or a slice is out of range |
| Commands.Device.VRead | pkg/vogo/commands.go:137-169 | every outcome of a read: no error if and only if every block was read without one and their bytes decode; the first block that fails gives its error and no data |
| Commands.Device.VWrite | pkg/vogo/commands.go:172-221 | every outcome of a write, with the complete log and cache: not writable exactly on its conditions; a failed block gives its error; without all blocks and an encodable value nothing but reads is sent |
| Commands.WellBlockedIff | pkg/vogo/commands.go:190-198 | an event divides into blocks of equal length if and only if its length is positive and the block factor is zero or divides it |
| Commands.BlocksExit | pkg/vogo/commands.go:198-207 | for such events the counter does not wrap and the loop leaves after one round per block |
| BlockLoop.LoopLeavesIff | pkg/vogo/commands.go:147-165 | the block loop ever leaves if and only if the block length is at most 256 less the greatest common divisor of the step and 256 |
| BlockLoop.LoopsForEver | pkg/vogo/commands.go:147-165 | two descriptions for which it never leaves: 250 bytes with factor 15, 5 bytes with factor 9 |
| BlockLoop.UnevenLeaves | pkg/vogo/commands.go:147-165 | one whose factor does not divide its length and for which it leaves |
| Cache.EngineIsFaithful | pkg/vogo/commands.go:85-95 | a log with any clock that a run of the engine carries from a quiet state is faithful and successful, and the memory after it is the controller's |
| Cache.ResultsAreFaithful | pkg/vogo/commands.go:85-95 | atomic results form a faithful log |
| Cache.ChunksPartition | pkg/vogo/commands.go:78-113 | ceil(n/32) chunks partition the range in order |
| Cache.ChunkedReadIsSlice | pkg/vogo/commands.go:59-117 | on a miss the body is the concatenation of the answers, the error is nil iff every chunk succeeded, and then the body is the memory slice |
| Cache.NoErrorIff | pkg/vogo/commands.go:105-114 | the error of a command is nil iff no chunk failed |
| Cache.LossIsReported | pkg/vogo/commands.go:51-95 | a lost engine never goes unnoticed: the last result is an error, alone or behind those of the finished commands |
| Cache.ResultIsIdentified | pkg/vogo/commands.go:64-116 | results that carry their command's identifier are passed on under it, and so is a hit |
| Cache.OneResultEach | pkg/vogo/commands.go:59-117 | absent a disconnect there is one result per command, in order, each that of its own command in the cache state before it |
| Cache.WriteIsStoreIff | pkg/vogo/commands.go:78-113 | a write is one store on every memory if and only if it is no longer than 32 bytes |
| Cache.CacheIsLatest | pkg/vogo/commands.go:96-104 | each cache entry is what the latest exchange that covered its address left there |
| Cache.HitIsFresh | pkg/vogo/commands.go:12-71 | with no discipline at all, each byte of a hit was reported by a successful read begun less than the cache duration ago and not covered since; hits end below 0x10000 |
| Cache.ReadAgainHits | pkg/vogo/commands.go:12-119 | after a successful read of any length the same read within the cache duration is served from the cache with the same bytes |
| Currency.HitIsCurrentIff | pkg/vogo/commands.go:12-104 | after every faithful log of reads and writes a hit is the controller's current memory if and only if, for each byte, no write since its exchange touched the address or the last one stored the same byte |
| Currency.StaleHit | pkg/vogo/commands.go:96-104 | two bytes are read, one command writes both, and the second one is still served as it was read |
| BlockAccess.ExchangeKeepsCoherence | pkg/vogo/commands.go:96-104 | the block invariant survives every faithful whole-block exchange |
| BlockAccess.HitIsMemory | pkg/vogo/commands.go:64-71 | under the invariant a hit is the controller's current memory |
| BlockAccess.CommandRefinesMemory | pkg/vogo/commands.go:46-119 | whole-block commands through the cache refine the memory: reads are current, writes are stores that invalidate, errors change nothing |
| BlockAccess.CommandsKeepCoherence | pkg/vogo/commands.go:46-119 | in every state reached by whole-block commands the cache is coherent |
| RoundTrip.ReadToIsSlice | pkg/vogo/commands.go:147-165 | reading block by block yields the event's slice of the memory |
| RoundTrip.ReadIsDecoded | pkg/vogo/commands.go:137-169 | over a coherent cache and faithful replies any data returned is the decoded form of the event's bytes in the controller's memory, and a failed block returns none |
| RoundTrip.WriteToStores | pkg/vogo/commands.go:213-218 | writing block by block stores the buffer and leaves every block stale |
| RoundTrip.StaleIsReadAgain | pkg/vogo/commands.go:64-71 | an event with stale blocks is read with one exchange per block |
| RoundTrip.WriteEffect | pkg/vogo/commands.go:172-221 | a successful write replaces the event's slice by its encoding and leaves a coherent cache with stale blocks |
| RoundTrip.StoreFrame | pkg/vogo/codec.go:55-471 | storing the encoded buffer changes only the event's own bits, anywhere in the memory, if and only if encoding did; and so if the encoder stays inside |
| RoundTrip.WriteThenRead | pkg/vogo/commands.go:137-221 | after a successful write all bits that are not the event's own are unchanged if the encoder stays inside, and the next read goes past the cache, block by block, and returns the decoded form of what was encoded |
| Served.ServedOnce | pkg/vogo/commands.go:59-117 | a whole-block command answered by the atomic result is a hit or one successful faithful exchange; a write is never a hit |
| Served.ReadingServed | pkg/vogo/commands.go:147-165 | from every coherent state there are faithful replies with which reading an event succeeds |
| Served.WriteGoesThroughIff | pkg/vogo/commands.go:172-221 | there are faithful replies with which a write goes through if and only if the value can be encoded into the event's current bytes |
| Served.NextReadServed | pkg/vogo/commands.go:137-169 | after such a write the next read can succeed too, so the round trip applies to every encodable value |
| PartialWrites.WriteToMerges | pkg/vogo/commands.go:213-218 | after a write phase with any errors the memory holds the new blocks where the write succeeded and the old ones elsewhere |
| PartialWrites.SilentWriteIff | pkg/vogo/commands.go:172-221 | a write that reports no error has stored the value if and only if for each block its exchange succeeded or the block was already as encoded |
| PartialWrites.SilentFailure | pkg/vogo/commands.go:208-220 | for every encodable value there are replies, each write refused, with which no error is reported and the memory is as before |
| Interleaving.HappenKeeps | pkg/vogo/commands.go:186-218 | every event of the interleaving keeps the invariant of lock, buffers, cache and memory |
| Interleaving.NoLostUpdates | pkg/vogo/commands.go:186-218 | over every interleaving of reads and writes the memory with the lock free is the encodings of the finished writes applied in lock order |
| Interleaving.FieldsAllSurvive | pkg/vogo/commands.go:186-218 | a written bit field survives any number of later writes, of any codec, that stay inside events without its bits |
| Interleaving.FieldValueIs | pkg/vogo/codec.go:40-45 | what a field in memory holds, in arithmetic on its byte |
| Interleaving.DisjointSpares | pkg/vogo/commands.go:186-218 | writes to other bit fields of the same byte are such writes |
| EndToEnd.CommandsOverTheWire | pkg/vogo/commands.go:46-119 | over a run of the engine from its start that carries whole-block commands the cache agrees with the controller's memory |
| EndToEnd.WriteThenReadOverTheWire | pkg/vogo/commands.go:137-221 | over a run of the engine that carries a write and the next read, every write answered: the controller's memory is the old one with the encoded value in place, only the event's own bits changed if the encoder stays inside, and the read goes past the cache and returns the value |
| EndToEnd.FaithfulIsCarried | pkg/vogo/fsm.go:340-676 | every faithful and successful log of fitting commands is carried by some run of the engine from its start |
| Concurrency.NoLostUpdatesOverTheWire | pkg/vogo/commands.go:186-218 | over every interleaving whose exchanges a run of the engine carries, the cache agrees with the controller and its memory with the lock free is the finished writes in lock order |
| Selection.FindDataPointType | pkg/vogo/xmlinfo.go:64-159 | an entry returned has the device's two identification bytes, and its half-open interval contains the next two bytes, or four if a bound is longer than four digits; nothing is found exactly if no entry of the list is such |
| Selection.MatchesIs | pkg/vogo/xmlinfo.go:82-116 | what a match is, in arithmetic on the device's bytes and the entry's fields |
| Selection.SelectionUndominated | pkg/vogo/xmlinfo.go:84-137 | in an unspoilt list an entry is chosen iff one matches, it matches, and no matching entry anywhere dominates it |
| Selection.SelectionUndominatedIff | pkg/vogo/xmlinfo.go:84-137 | the choice is undominated in every sublist if and only if the list is unspoilt |
| Selection.SelectionNarrowsIff | pkg/vogo/xmlinfo.go:115-133 | in every sublist the interval only narrows if and only if open entries come before the bounded ones they could displace |
| Selection.OpenDisplacesBounded | pkg/vogo/xmlinfo.go:130-133 | a concrete list in which a dominated entry is chosen |
| Selection.ValidateEventType | pkg/vogo/xmlinfo.go:199-366 | accepted exactly if address and bit length are readable, the conversion is one of fifteen and the length check passes; then every field, the codec and the factor are as the description and the conversion say, and a scaled number's factor is nonzero |
| Selection.FactorsAreNamed | pkg/vogo/xmlinfo.go:297-325 | dividing conversions have the reciprocal of the number in their name as factor, multiplying ones the number |
| Selection.LengthCheckIff | pkg/vogo/xmlinfo.go:277-279 | the length check keeps the value inside every block if and only if the `uint8` sum does not wrap |

## Left out

- Refinement.ExchangeRefinesMemory: covers P300; the controller replies to EOT with the two ENQ calls the engine waits for, and link errors, write errors and closed channels are excluded. Commands have at most 250 argument or result bytes, the most a one-byte length can frame. The KW exchange is covered by the safety theorems only; `ModeIsFixed` shows that it is not entered from the real start state.
- RoundTrip.WriteThenRead: presumes that every exchange of the write phase succeeds and that the following read reports no error (`SilentWriteIff` covers the other writes); covers event types that can be read and are laid out in the block partition. The value returned is named for values that fit their place; for others the theorem says that the decoded form of the encoded buffer is returned.
- Interleaving.NoLostUpdates: writes whose store phase fails half-way are not part of the interleaving.
- Codecs.DecodeFailsIff: what lies behind a buffer up to its capacity is taken as absent when reading, so a slice that only reaches there counts as out of range.
- Commands.Device.VRead: descriptions for which the block loop never leaves are covered as far as a failing block ends it; a read that never comes back has no outcome.
- Commands.Device.VWrite: buffers of more than 255 bytes are not modelled; there the indices of the encoders would wrap. What lies behind the buffer up to its capacity, which the slices can reach, is a parameter.
- Codec.ScaledClose: over real numbers; the rounding of float32 is not modelled, and the conversion of a scaled value outside the integer range is taken as wrapping.
- Codec.ScaledFixed: over real numbers, as above.
- Codecs.EncodeInPlace: dates come as civil fields and durations as whole seconds; parsing of strings, time zones, normalisation of invalid dates and the replacement of the zero time by the current one are not modelled.
- Selection.FindDataPointType: entries come with their hexadecimal fields parsed; reading XML and filling the event list of the chosen device are not modelled.
- Selection.SelectionUndominatedIff: presumes that matching entries have identifiers, since the loop takes an empty one for no match; exact for a list together with its sublists.
- Selection.SelectionNarrowsIff: as above.
- Selection.ValidateEventType: numbers come parsed and factors are real numbers; whether an identifier begins with the name of the fault history is an input, so the index panic on a shorter identifier is not modelled.
- `FindEventTypes` and `str2CmdType`: bookkeeping over a map and a table.
- Sockets, the serial port, the buffered reader, `Connect`, `Reconnect` and `Close`: the engine knows only that a write failed, the link failed or the byte channel closed.
- The `Done` channel: after a closed byte channel in the wait state the model goes on as if the notice had been taken.
- The disabled sequence counter and the unimplemented function call.
- `nopCodec`, `mappingRaster152` and the encoders that do nothing: the dispatch treats them as the identity.
- The three-second pause after a failed reset, other sleeps, logging and marshalling to JSON.
- The generation of command IDs.
- The HTTP interface and the command-line program.
