# Verified model of the Android wallet host layer

The repository drives hardware wallets from a phone. Between the wallet application and the
device-protocol core it owns four pieces of logic, and this project models them in Dafny and
proves what they promise:

- **Stream framing for Jade** (`CborScanner`, `CborGrammar`, `CborTheorems`, `CborLimits`,
  `JadeLink`): a structural walk over CBOR headers that tells a complete value from a cut-off
  one, and the read loop on top of it. The scanner is proved equal to a recursive function under
  32-bit and 64-bit wrap-around, and that function is proved to recognise exactly a grammar with
  a serializer: RFC 8949 section 3, plus a break in the middle of a pair (against section 3.2.3)
  and a simple value below 32 in two bytes (against section 3.3).
- **Wire framings** (`LedgerHid`, `LedgerBle`, `Coldcard`, `BitBox`, `TrezorV1`, `SpecterLink`
  over `HidChannels`): loops over reused buffers, each proved against a function of the payload
  and of what the channel answers, and then inverted. `Retirement` is the state machine by which
  a Trezor or Specter link poisons itself before its first suspension point and revives only
  after a complete reply, for any number of concurrent calls.
- **Interpreter lifecycle, leases and the signed-PSBT gate** (`Interpreter`, `Leases`,
  `PsbtGate`): one command per interpreter, exclusive use of device state between threads, and
  what survives a chain of signing sessions.
- **Session facade and driving loop** (`Facade`, `Driving`): every interleaving of commands,
  reconfigurations and disconnects on one session, and the order of events in one command.

The device-protocol core, the transports, cancellation and the clock are not modelled but
quantified over: a channel is a script of answers and failures, the core may answer any call
with anything, a cancellation check may fail wherever the code has one. A script is finite; a
channel that has run out of answers fails.

Where the code and what its comments say differ, the model follows the code:

- `Cbor.kt:12-18` separates "more bytes are needed" from "reading more bytes cannot fix it".
  The guard on item counts delays the second answer: `[0x82, 0x1c]` is called incomplete although
  it starts no item. `CborLimits.MalformedAtOnceIff` says exactly when that happens.
- The guard keeps header values "out of the Int arithmetic", but `pairs * 2` still overflows for
  a map of 2^30 pairs. `CborLimits.SafeLengthIsExact` gives the buffer length, 2^30 + 4 bytes, up to
  which no input is affected; one byte more and one is. `CborLimits.WrapAround` says that beyond
  it only malformed bytes are, so that no item is ever missed.
- The Ledger HID sender writes the low 16 bits of the length and checks no bound, so a payload
  comes back iff it is shorter than 65536 bytes (`LedgerHid.RoundTripIff`).
- The Coldcard `fram` mitigation applies to any first report whose bytes 1 to 4 spell `fram`, so
  it also cuts a reply of several reports to its first chunk (`Coldcard.WholeIff`).
- `payload.size + CHUNK - 1` (`Links.kt:184`) overflows for a Coldcard payload of more than
  2^31 - 63 bytes; the link then writes nothing and waits for a reply (`Coldcard.Chunks`).
- A pairing code that is known but not yet polled when a command is cancelled stays in the slot
  and is handed to the caller of the next command (`Driving.CancelledCodeStays`,
  `Driving.OldCodeIsSurfaced`). `Driving.LearnedCodesIff` has the exact condition.
- The gate on signed PSBTs is not transitive, and a session may rewrite the sighash request the
  next session is checked against (`PsbtGate.ReuseAfterFinalizing`,
  `PsbtGate.RequestCanBeRewritten`). `PsbtGate.NextSessionIsSafeIff` says exactly for which
  request and first result no next session can bring what the first would have refused.
- A Coldcard that answers with a link key gets `TaskDone` whatever the command expected
  (`Interpreter.KeyAnswersAnything`).

## Model

| member | source | states |
|---|---|---|
| CborScanner.IsComplete | android/lib/src/main/kotlin/com/wizardsardine/bhwi/Cbor.kt:21 | the verdict on a buffer is that of the recursive scanner under JVM arithmetic, with the malformed and the index-exception outcome kept apart |
| CborScanner.ReadArgument | android/lib/src/main/kotlin/com/wizardsardine/bhwi/Cbor.kt:34-41 | shifting one to eight bytes into a `Long` gives the unsigned big-endian number, wrapped to 64 signed bits |
| CborScanner.SignedGuardIsUnsigned | android/lib/src/main/kotlin/com/wizardsardine/bhwi/Cbor.kt:52-57 | the signed guard on a wrapped length rejects exactly when the unsigned 64-bit length exceeds the bytes left |
| CborScanner.EndOfValue | android/lib/src/main/kotlin/com/wizardsardine/bhwi/Cbor.kt:24-51 | the array walk ends, stays in bounds and answers as the recursive scanner does on the buffer's first `end` bytes |
| CborScanner.EndOfSized | android/lib/src/main/kotlin/com/wizardsardine/bhwi/Cbor.kt:52-67 | the closing dispatch on a wrapped length agrees with the scanner on the true length |
| CborScanner.EndOfChunks | android/lib/src/main/kotlin/com/wizardsardine/bhwi/Cbor.kt:71-82 | the chunk loop agrees with the recursive scanner for every start and major type |
| CborScanner.EndOfItems | android/lib/src/main/kotlin/com/wizardsardine/bhwi/Cbor.kt:85-96 | the item loop, whose counter may wrap, agrees with the recursive scanner for every 32-bit count |
| CborTheorems.ScanAccepts | android/lib/src/main/kotlin/com/wizardsardine/bhwi/Cbor.kt:24-68 | every item of the grammar, with any head widths and nesting, is found anywhere in any buffer and ends at its encoded length |
| CborTheorems.ParseValue | android/lib/src/main/kotlin/com/wizardsardine/bhwi/Cbor.kt:24-96 | whatever the scanner calls a value is the encoding of one item of the relaxed grammar |
| CborTheorems.ScannerRecognisesGrammar | android/lib/src/main/kotlin/com/wizardsardine/bhwi/Cbor.kt:11-96 | the answer is "complete at p" if and only if the first p bytes encode an item |
| CborTheorems.CutValue | android/lib/src/main/kotlin/com/wizardsardine/bhwi/Cbor.kt:24-96 | cutting a buffer anywhere only turns answers into "incomplete", and not those that end before the cut |
| CborTheorems.AnswersSurviveAppending | android/lib/src/main/kotlin/com/wizardsardine/bhwi/Cbor.kt:12-21 | appended bytes never change an answer other than "incomplete" |
| CborTheorems.ValueIsTight | android/lib/src/main/kotlin/com/wizardsardine/bhwi/Cbor.kt:23-24 | a found value is still found in the buffer cut right behind it, and in no shorter one |
| CborTheorems.ItemOrPrefix | android/lib/src/main/kotlin/com/wizardsardine/bhwi/Cbor.kt:4-9 | of an item with anything behind it, every proper prefix of the item is incomplete and every longer prefix is complete at the item's length |
| CborTheorems.Unambiguous | android/lib/src/main/kotlin/com/wizardsardine/bhwi/Cbor.kt:24-96 | no bytes are the start of two different items |
| CborTheorems.ScannerIsLooser | android/lib/src/main/kotlin/com/wizardsardine/bhwi/Cbor.kt:42-66 | every item outside the strict grammar is accepted, and its bytes start no strict item |
| CborTheorems.BreakMidPair | android/lib/src/main/kotlin/com/wizardsardine/bhwi/Cbor.kt:84-92 | a break behind the key of an indefinite map's pair is in the relaxed grammar only |
| CborTheorems.TwoByteSimpleValue | android/lib/src/main/kotlin/com/wizardsardine/bhwi/Cbor.kt:60-62 | a simple value below 32 in two bytes is in the relaxed grammar only |
| CborLimits.WrapIsHarmless | android/lib/src/main/kotlin/com/wizardsardine/bhwi/Cbor.kt:34-65 | up to 2^30 + 4 bytes the wrapping scanner equals the unbounded one on every input and at every start |
| CborLimits.WrapAround | android/lib/src/main/kotlin/com/wizardsardine/bhwi/Cbor.kt:34-65 | at every length an `Int` holds, the wrapping scanner differs from the unbounded one only on bytes that are malformed and longer than 2^30 + 4, or by an index exception on the last eight possible lengths |
| CborLimits.OverflowIsReal | android/lib/src/main/kotlin/com/wizardsardine/bhwi/Cbor.kt:65 | for every greater length a map header of 2^30 pairs makes the code accept six bytes that are malformed |
| CborLimits.SafeLengthIsExact | android/lib/src/main/kotlin/com/wizardsardine/bhwi/Cbor.kt:52-65 | wrap-around is harmless for all buffers of a length if and only if that length is at most 2^30 + 4 |
| CborLimits.EagerDecidesViability | android/lib/src/main/kotlin/com/wizardsardine/bhwi/Cbor.kt:15-18 | without the guard on counts, "malformed" means exactly that no item begins with or within these bytes |
| CborLimits.GuardValue | android/lib/src/main/kotlin/com/wizardsardine/bhwi/Cbor.kt:52-57 | the guard changes an answer only at a container that announces more items than bytes remain, and then to "incomplete" for a value that is not complete |
| CborLimits.AnswersAreSafe | android/lib/src/main/kotlin/com/wizardsardine/bhwi/Cbor.kt:12-18 | "malformed" is never premature, and on bytes that can become an item the guard changes nothing |
| CborLimits.MalformedAtOnceIff | android/lib/src/main/kotlin/com/wizardsardine/bhwi/Cbor.kt:12-18 | "malformed" is answered if and only if the bytes are hopeless and no container on the way is overcommitted |
| CborLimits.GuardHidesAMalformedItem | android/lib/src/main/kotlin/com/wizardsardine/bhwi/Cbor.kt:56-57 | two bytes for which the promise of an immediate "malformed" fails |
| JadeLink.JadeSerialLink.Exchange | android/lib/src/main/kotlin/com/wizardsardine/bhwi/Links.kt:366-380 | writes the payload once, reads and answers exactly as the specification of the read loop says, and leaves all later reads alone |
| JadeLink.OutcomeIff | android/lib/src/main/kotlin/com/wizardsardine/bhwi/Links.kt:370-379 | for every sequence of reads, which result comes and exactly when: each read of 1 to 1024 bytes goes on while the bytes so far are incomplete, and the first that fails, is empty or oversized, or settles them decides |
| JadeLink.ChunkingDoesNotMatter | android/lib/src/main/kotlin/com/wizardsardine/bhwi/Links.kt:370-385 | if the stream starts with an item, of any length up to 2^31 - 9 bytes less the last chunk, then for every split into reads of 1 to 1024 bytes the exchange succeeds at the first read that reaches the item's end and over-reads by less than a chunk |
| JadeLink.GatherIsSound | android/lib/src/main/kotlin/com/wizardsardine/bhwi/Links.kt:359-379 | whatever the device sends, a returned message was incomplete before its last read, and it starts with an item unless it is longer than 2^30 + 4 bytes and no item at all |
| JadeLink.MessagesAreItemsIff | android/lib/src/main/kotlin/com/wizardsardine/bhwi/Links.kt:370-379 | "every returned message of at most n bytes starts with an item, whatever the device sends" holds if and only if n is at most 2^30 + 4 |
| JadeLink.MalformedIsHopeless | android/lib/src/main/kotlin/com/wizardsardine/bhwi/Links.kt:377-378 | an exchange that fails as malformed has a stream, of any length, that starts no item, whatever else was to come |
| HidChannels.FirstRefused | android/lib/src/main/kotlin/com/wizardsardine/bhwi/Links.kt:128-130 | the first report the channel does not take whole, its unsigned count read as an `Int`: all before it are taken and it is not |
| HidChannels.SentIff | android/lib/src/main/kotlin/com/wizardsardine/bhwi/Links.kt:128-130 | a report counts as sent if and only if between 64 and 2^31 - 1 bytes were taken |
| LedgerHid.LedgerHidLink.Exchange | android/lib/src/main/kotlin/com/wizardsardine/bhwi/Links.kt:105-165 | the reports written are the specified ones up to the first refused, nothing is read before all are taken, and the result is the decoder's on a blank buffer |
| LedgerHid.LedgerHidLink.WriteReports | android/lib/src/main/kotlin/com/wizardsardine/bhwi/Links.kt:106-133 | the reused buffer sends, report by report, the framed bytes with the stale tail of the report before |
| LedgerHid.LedgerHidLink.ReadReports | android/lib/src/main/kotlin/com/wizardsardine/bhwi/Links.kt:138-164 | the read loop over the reused buffer equals the recursive decoder and consumes what it consumes |
| LedgerHid.StaleTail | android/lib/src/main/kotlin/com/wizardsardine/bhwi/Links.kt:111-113 | a byte past the end of the framed bytes is the one 59 bytes earlier, or zero if there is only one report |
| LedgerHid.ReadsBack | android/lib/src/main/kotlin/com/wizardsardine/bhwi/Links.kt:135-163 | reports cut anywhere behind their last meaningful byte, with any buffer underneath, decode to the payload their length field announces |
| LedgerHid.RoundTripIff | android/lib/src/main/kotlin/com/wizardsardine/bhwi/Links.kt:105-164 | the reports of this link always decode, and to the payload itself if and only if it is shorter than 65536 bytes |
| LedgerHid.AnswerIsAsAnnounced | android/lib/src/main/kotlin/com/wizardsardine/bhwi/Links.kt:142-163 | every answer, from any device, has the announced length and costs exactly the reports it fills |
| LedgerHid.OutcomeIff | android/lib/src/main/kotlin/com/wizardsardine/bhwi/Links.kt:138-164 | for every sequence of reports, which result comes and exactly when: channel, tag, sequence and size are checked report by report, and an answer is what lies behind the headers, read over the stale buffer, joined and cut to the announced length |
| LedgerBle.LedgerBleLink.Exchange | android/lib/src/main/kotlin/com/wizardsardine/bhwi/Links.kt:447-492 | asks for the frame size on the first call only and keeps it, writes nothing else when the size is not answered or the APDU is over 65535 bytes, and otherwise writes the frames up to the first failing write and answers as the decoder |
| LedgerBle.LedgerBleLink.FrameSize | android/lib/src/main/kotlin/com/wizardsardine/bhwi/Links.kt:494-515 | the frame size is the tighter bound but at least 20, found in at most eight reads and remembered |
| LedgerBle.InferIff | android/lib/src/main/kotlin/com/wizardsardine/bhwi/Links.kt:506-515 | the frame size is the sixth byte, or 20 without one, of the first of at most eight notifications with tag 8, and which failure comes otherwise |
| LedgerBle.FrameSizeOf | android/lib/src/main/kotlin/com/wizardsardine/bhwi/Links.kt:496-498 | at least 20, and above that no more than the device and the platform allow |
| LedgerBle.LedgerBleLink.WriteFrames | android/lib/src/main/kotlin/com/wizardsardine/bhwi/Links.kt:451-469 | the loop ends and writes exactly the frames of the APDU, one for an empty one |
| LedgerBle.LedgerBleLink.ReadAnswer | android/lib/src/main/kotlin/com/wizardsardine/bhwi/Links.kt:471-491 | the read loop equals the recursive decoder over all notifications |
| LedgerBle.OutcomeIff | android/lib/src/main/kotlin/com/wizardsardine/bhwi/Links.kt:471-491 | for every sequence of notifications, which result comes and exactly when: an answer needs the APDU frames numbered 0, 1, 2 and so on, the first with its length, none before the last completing it, and is their bodies joined and cut to that length |
| LedgerBle.RoundTrip | android/lib/src/main/kotlin/com/wizardsardine/bhwi/Links.kt:451-491 | the frames of an APDU of up to 65535 bytes, at any frame size from 20 and shuffled into any other notifications, read back as the APDU, reading stops right behind the last frame, and what comes later, failures included, plays no part |
| LedgerBle.FramesFit | android/lib/src/main/kotlin/com/wizardsardine/bhwi/Links.kt:455-465 | every frame is APDU traffic and no longer than the frame size |
| LedgerBle.FramesAreFull | android/lib/src/main/kotlin/com/wizardsardine/bhwi/Links.kt:455-456 | every frame but the last has exactly the frame size |
| LedgerBle.SequenceNeverWraps | android/lib/src/main/kotlin/com/wizardsardine/bhwi/Links.kt:449-468 | an APDU that is allowed needs fewer than 65536 frames |
| Coldcard.FlagByte | android/lib/src/main/kotlin/com/wizardsardine/bhwi/Links.kt:188-189 | length, last and encrypted are each recovered from the flag byte: they never collide |
| Coldcard.ColdcardHidLink.Exchange | android/lib/src/main/kotlin/com/wizardsardine/bhwi/Links.kt:181-210 | writes the specified reports up to the first refused, none at all for an empty payload or one so long that the chunk count wraps, and answers as the decoder |
| Coldcard.ColdcardHidLink.WriteReports | android/lib/src/main/kotlin/com/wizardsardine/bhwi/Links.kt:182-194 | the reused buffer sends each chunk with its flag byte and the stale tail of the chunk before |
| Coldcard.StaleTail | android/lib/src/main/kotlin/com/wizardsardine/bhwi/Links.kt:182-190 | a byte behind the last chunk is the one 63 bytes earlier, or zero if there is only one report |
| Coldcard.ColdcardHidLink.ReadReports | android/lib/src/main/kotlin/com/wizardsardine/bhwi/Links.kt:196-209 | the reply loop equals the recursive decoder |
| Coldcard.AnswerIff | android/lib/src/main/kotlin/com/wizardsardine/bhwi/Links.kt:196-209 | over every sequence of reads, an answer is given if and only if the reports end, by the flag or by a first report that spells `fram`, exactly where the reader stops, and it is their chunks joined |
| Coldcard.FailureIff | android/lib/src/main/kotlin/com/wizardsardine/bhwi/Links.kt:199-202 | a reply fails exactly at the first read behind unfinished reports that throws or is not of 64 bytes, and for that reason |
| Coldcard.HostIsHeard | android/lib/src/main/kotlin/com/wizardsardine/bhwi/Links.kt:183-194 | a receiver that follows the flags recovers payload and encryption flag from the written reports if and only if the payload is not empty and the chunk count does not wrap |
| Coldcard.ReplyIs | android/lib/src/main/kotlin/com/wizardsardine/bhwi/Links.kt:196-209 | for reports of any chunk lengths and padding up to the first flagged one: all their chunks joined, or the first chunk alone if bytes 1 to 4 of the first report spell `fram` |
| Coldcard.WholeIff | android/lib/src/main/kotlin/com/wizardsardine/bhwi/Links.kt:204-208 | a flagged reply comes back whole if and only if its first report does not spell `fram` in bytes 1 to 4 or the reports behind it carry nothing |
| BitBox.Encode | android/lib/src/main/kotlin/com/wizardsardine/bhwi/Links.kt:238-263 | refuses exactly the messages over 7550 bytes and otherwise fills the array with the frames, byte for byte and zero padded |
| BitBox.EncodedIsExact | android/lib/src/main/kotlin/com/wizardsardine/bhwi/Links.kt:238-263 | every byte of an encoded message: channel, command and length, sequence number, message, zero padding |
| BitBox.Decode | android/lib/src/main/kotlin/com/wizardsardine/bhwi/Links.kt:266-285 | stays in bounds for every declared length and reassembles the message from its places in the frames |
| BitBox.DecodedIff | android/lib/src/main/kotlin/com/wizardsardine/bhwi/Links.kt:266-271 | for every buffer, exactly when more frames are needed, and when it is refused for its channel or its command |
| BitBox.FewFrames | android/lib/src/main/kotlin/com/wizardsardine/bhwi/Links.kt:231-258 | an allowed message takes at most 128 frames, and continuation frame f carries the sequence byte f - 1, which is below 127 |
| BitBox.RoundTrip | android/lib/src/main/kotlin/com/wizardsardine/bhwi/Links.kt:238-285 | an encoded message with anything behind it decodes to the message, and every proper prefix asks for more |
| BitBox.CollectsMessage | android/lib/src/main/kotlin/com/wizardsardine/bhwi/Links.kt:338-346 | the frames of a message are collected to it, and not one report more is read |
| BitBox.CollectIff | android/lib/src/main/kotlin/com/wizardsardine/bhwi/Links.kt:338-346 | for every sequence of reports, which result a query gives and exactly when |
| BitBox.BitBoxHidLink.Exchange | android/lib/src/main/kotlin/com/wizardsardine/bhwi/Links.kt:309-324 | result and written reports are those of the polling specification, for every device behaviour |
| BitBox.BitBoxHidLink.Query | android/lib/src/main/kotlin/com/wizardsardine/bhwi/Links.kt:327-347 | one query writes its frames up to the first refused and consumes exactly the reports of the reply |
| BitBox.PolledUntilReady | android/lib/src/main/kotlin/com/wizardsardine/bhwi/Links.kt:314-323 | a device that is not ready k times sees one request and k one-byte retries, and its last reply is returned, or reported as busy, refused or unexpected, by its status byte |
| TrezorV1.TrezorV1Link.Exchange | android/lib/src/main/kotlin/com/wizardsardine/bhwi/Links.kt:35-71 | invalid requests and calls on a retired link touch nothing; an admitted call writes a prefix of the request's packets and succeeds if and only if all of them are taken as 64 bytes, the channel has a whole reply and the coroutine stays active; only then is the link ready again |
| TrezorV1.ReplyIsExact | bhwi-ffi/src/interp.rs:193-205 | every reply the link returns, from any device, passes the interpreter's frame check and cost exactly the packets it fills |
| TrezorV1.OutcomeIff | android/lib/src/main/kotlin/com/wizardsardine/bhwi/Links.kt:55-86 | for every sequence of packets, which result comes and exactly when: 64 bytes behind the prefix, a first packet that opens a frame of an allowed length, and then what they carry, joined and cut to it |
| TrezorV1.RoundTrip | android/lib/src/main/kotlin/com/wizardsardine/bhwi/Links.kt:41-86 | every valid frame sent as packets is read back whole from exactly its ceil(n/63) packets |
| SpecterLink.SpecterFrameDecoder.Push | bhwi-ffi/src/state.rs:284-310 | completion or an error drops the parser for good, later pushes are refused, and a payload comes back in its canonical frame |
| SpecterLink.SpecterSerialLink.Exchange | android/lib/src/main/kotlin/com/wizardsardine/bhwi/Links.kt:402-427 | a retired link does no I/O; an admitted call writes the request once and succeeds if and only if the parser finds a reply in the reads while the coroutine is active and the deadline holds; only then is the link ready again |
| SpecterLink.OutcomeIff | android/lib/src/main/kotlin/com/wizardsardine/bhwi/Links.kt:410-418 | for every parser and every sequence of reads, which result comes and exactly when |
| SpecterLink.ChunkingDoesNotMatter | android/lib/src/main/kotlin/com/wizardsardine/bhwi/Links.kt:410-418 | with any incremental parser every split of a reply into reads gives the same frame and stops with the completing read |
| Retirement.LinkIsSafe | android/lib/src/main/kotlin/com/wizardsardine/bhwi/Links.kt:39-70 | over every interleaving with failure or cancellation anywhere: one exchange inside at most, none interleaved on the channel, and on a ready link every call on the log made exactly the writes of its request and the reads of one whole reply |
| Retirement.GoesWell | android/lib/src/main/kotlin/com/wizardsardine/bhwi/Links.kt:39-70 | an admitted exchange that writes its request and whose reads make a whole reply with the last of them succeeds, and the link is ready again |
| Retirement.AdmittedIff | android/lib/src/main/kotlin/com/wizardsardine/bhwi/Links.kt:36-39 | a call gets past the compare-and-set exactly if its request is valid and the link was ready, and the link no longer is |
| Retirement.FailureRetires | android/lib/src/main/kotlin/com/wizardsardine/bhwi/Links.kt:403-425 | after an admitted failure no run reaches the channel again or makes the link ready |
| Retirement.InvalidRequestsAreInvisible | android/lib/src/main/kotlin/com/wizardsardine/bhwi/Links.kt:36-39 | leaving an invalid request out of any run gives a run that ends with the same readiness, the same log and the same other calls |
| Retirement.TrezorLinkIsSafe | android/lib/src/main/kotlin/com/wizardsardine/bhwi/Links.kt:39-86 | on a ready Trezor link every logged call wrote the packets of a valid request and read exactly the packets of one exact frame |
| Retirement.SpecterReadsOneReply | android/lib/src/main/kotlin/com/wizardsardine/bhwi/Links.kt:410-418 | a completed Specter call has read exactly what its parser needed for a frame |
| Retirement.SpecterLinkIsSafe | android/lib/src/main/kotlin/com/wizardsardine/bhwi/Links.kt:402-427 | on a ready Specter link every logged call wrote one request and read exactly what its parser needed for one frame |
| PsbtGate.CheckReturned | bhwi-ffi/src/interp.rs:486-566 | the loop complains about a changed transaction first and otherwise about the first input in order that fails, a lost signature before a wrong mode |
| PsbtGate.VerdictIff | bhwi-ffi/src/interp.rs:540-564 | the complaint is that of the first input that is refused, a lost signature before a wrong mode |
| PsbtGate.AcceptedIff | bhwi-ffi/src/interp.rs:496-559 | an input is accepted if and only if each signature of the request is in its slot, or gone from it into a final field, set final fields stay, and signatures in empty slots carry the mode asked for |
| PsbtGate.PushesIff | bhwi-ffi/src/interp.rs:501-513 | a final script contains a signature if and only if it assembles from instructions of which one pushes exactly these bytes; a script that assembles from none contains nothing |
| PsbtGate.AskedModeIff | bhwi-ffi/src/interp.rs:550-558 | the mode asked for is ALL or the Taproot default without a sighash field, and otherwise the standard mode the field names |
| PsbtGate.SerializationIsExact | bhwi-ffi/src/interp.rs:515-528 | the bytes looked for determine the signature: DER and mode, or 64 Schnorr bytes and a mode byte unless it is the default |
| PsbtGate.CopiesDecide | bhwi-ffi/src/interp.rs:122-141 | the six-field copies decide exactly as the whole original inputs would |
| PsbtGate.UnchangedIsAccepted | bhwi-ffi/src/interp.rs:494-565 | returning the requested PSBT is always accepted |
| PsbtGate.MoreSignaturesAreAccepted | bhwi-ffi/src/interp.rs:545-559 | signatures of the requested mode for further keys never turn an accepted result away |
| PsbtGate.TransactionIsFixed | bhwi-ffi/src/interp.rs:487-493 | over any chain of accepted sessions the transaction and the number of inputs stay |
| PsbtGate.FinalsAreFixed | bhwi-ffi/src/interp.rs:530-539 | over any chain a final script or witness, once set, never changes |
| PsbtGate.NoSignatureIsLost | bhwi-ffi/src/interp.rs:515-544 | over any chain every signature ever there is still in its slot, an item of the witness, or the data of a push in the final script |
| PsbtGate.ModeComesFromTheRequest | bhwi-ffi/src/interp.rs:545-565 | every partial, Taproot script and Taproot key signature of a chain was there from the start or has the mode that the request of the session that added it asks for |
| PsbtGate.SteadyRequestsFixTheMode | bhwi-ffi/src/interp.rs:545-565 | if no session changes the sighash field, all added signatures of the three kinds carry its mode |
| PsbtGate.NextSessionIsSafeIff | bhwi-ffi/src/interp.rs:486-566 | every result the gate accepts in a next session is one it would accept for the first request if and only if, as request and first result alone show, no new signature is possible in a slot or the mode asked for is unchanged and every filled slot is still filled |
| PsbtGate.SafeChainIsOneSession | bhwi-ffi/src/interp.rs:486-566 | a chain whose PSBTs but the last are each safe in that sense amounts to one accepted session |
| PsbtGate.ReuseAfterFinalizing | bhwi-ffi/src/interp.rs:515-519 | for any key and two signatures, a chain that shows the gate is not transitive while the first signature stays |
| PsbtGate.RequestCanBeRewritten | bhwi-ffi/src/interp.rs:545-550 | a chain that ends with a signature of a mode the first request excludes |
| Interpreter.Interp.StartCommand | bhwi-ffi/src/interp.rs:263-284 | the object moves as the lifecycle machine does and its handle is leased exactly while the session lives |
| Interpreter.Interp.ExchangeReply | bhwi-ffi/src/interp.rs:193-233 | as for the start: new state, result and lease are those of the machine, for every reply and core answer |
| Interpreter.PayloadsAreTheCores | bhwi-ffi/src/interp.rs:222-232 | over every run, the payloads the caller is given are exactly those the core gave, in order, and the replies the core saw are exactly those of the exchange calls that reached it |
| Interpreter.ReachedIff | bhwi-ffi/src/interp.rs:183-221 | which calls reach the core: a first start with a valid command, an exchange of a running command whose reply is a frame where one is due and no wrong registration, the end of a finished one |
| Interpreter.UnreachedReports | bhwi-ffi/src/interp.rs:193-220 | what the other calls report: misuse, the failed validation, or a device failure for an unusable reply |
| Interpreter.Interp.Finish | bhwi-ffi/src/interp.rs:433-569 | the session and its lease are gone on every path, and a link key is installed only for a finished Coldcard command whose engine takes it |
| Interpreter.NewLeased | bhwi-ffi/src/interp.rs:291-332 | a constructor is refused exactly while the handle's lease is out, and otherwise owns it |
| Interpreter.Leased.Acquire | bhwi-ffi/src/state.rs:58-63 | succeeds exactly when the flag was down, and leaves it up |
| Interpreter.Leased.Export | bhwi-ffi/src/state.rs:84-92 | reads the contents exactly when no lease is out, and leaves flag and contents as they were |
| Interpreter.RuntimeFailuresRetire | bhwi-ffi/src/types.rs:500-537 | no core error maps to the misuse error, so every failure after the core was involved retires the session and every other failure leaves the state exactly as it was |
| Interpreter.ErrorsReported | bhwi-ffi/src/types.rs:500-537 | which core errors are reported as refusal, cancellation, already unlocked or invalid input; all others are device failures |
| Interpreter.MatchesIff | bhwi-ffi/src/types.rs:190-204 | a response passes exactly if anything is expected or it is of the one kind that is |
| Interpreter.CoreSeesOneCommand | bhwi-ffi/src/interp.rs:411-447 | over every sequence of calls the core sees at most one start, first, and at most one end, last |
| Interpreter.RetiredStaysRetired | bhwi-ffi/src/interp.rs:271-273 | without a session every further call fails with the misuse error and changes nothing |
| Interpreter.ResponsesFollowDone | bhwi-ffi/src/interp.rs:443-447 | a response is returned only after an exchange said there is nothing more to send |
| Interpreter.ReturnsIff | bhwi-ffi/src/interp.rs:443-569 | over every run, `end` returns a response if and only if the command is finished, the core answered with it, it is what the started command expects, and a signed PSBT is faithful to the one asked for; or a Coldcard key was taken |
| Interpreter.EndReports | bhwi-ffi/src/interp.rs:470-485 | what an end that reached the core and returns nothing reports |
| Interpreter.ResponseIsExpected | bhwi-ffi/src/interp.rs:463-485 | a returned response is of the kind the started command expects, but for the Coldcard key |
| Interpreter.KeyAnswersAnything | bhwi-ffi/src/interp.rs:464-475 | over every run that gets to its end, a Coldcard link key reports the started command as done although that is not what it expects, and fails the command of any other family |
| Interpreter.SignedPsbtIsAccepted | bhwi-ffi/src/interp.rs:122-151 | whatever calls were made and whatever the core answered, `end` returns a PSBT only for a command that asked to sign one, and the gate accepts it for that one |
| Interpreter.SigningKeepsSignatures | bhwi-ffi/src/interp.rs:486-566 | a chain of whole commands on fresh interpreters of any family, each asked to sign what the one before returned, keeps transaction, final fields and every signature |
| Leases.LeasesAreExclusive | bhwi-ffi/src/state.rs:45-93 | over every interleaving: one holder per handle, the flag is up exactly while there is one, contents are not used in turns, nobody releases twice, and all handles end free |
| Leases.AcquiresIff | bhwi-ffi/src/state.rs:58-63 | an acquisition succeeds if and only if no actor has the lease, and then this one has it |
| Leases.EveryWayReleases | bhwi-ffi/src/interp.rs:433-480 | from any lease both ways out, early and through `end` with or without a key, can be gone and leave the handle free |
| Leases.ReleaseIsItsOwn | bhwi-ffi/src/interp.rs:92-103 | the unconditional store clears a lease its caller holds, which nobody else has, and moves no other flag |
| Leases.KeysAreWrittenByTheHolder | bhwi-ffi/src/interp.rs:464-473 | a key changes only by the one holder, before it releases |
| Leases.InstallsKey | bhwi-ffi/src/interp.rs:464-473 | a key the engine takes is in place when its holder goes on to release |
| Leases.KeyComesBeforeTheNextLease | bhwi-ffi/src/interp.rs:460-463 | nobody acquires a handle whose holder is still ending |
| Driving.RunCommand | android/lib/src/main/kotlin/com/wizardsardine/bhwi/Hwi.kt:44-67 | the loop does exactly the events of the specification, for every interpreter, transport, handler and cancellation |
| Driving.EachPayloadGoesToItsRecipient | android/lib/src/main/kotlin/com/wizardsardine/bhwi/Hwi.kt:71-81 | call number k takes payload number k to its recipient, with its flag or to its URL, and nothing else is called; none is missing when a response comes out |
| Driving.UnservableEndsTheCommand | android/lib/src/main/kotlin/com/wizardsardine/bhwi/Hwi.kt:73-80 | a payload for the host, or for the PIN server without a bridge, is the last asked for, makes no call, and no response comes out |
| Driving.ResponseIff | android/lib/src/main/kotlin/com/wizardsardine/bhwi/Hwi.kt:51-67 | a response comes out if and only if the command starts, every turn goes well, the last gives no further payload, and the end gives one |
| Driving.TurnIsOrderly | android/lib/src/main/kotlin/com/wizardsardine/bhwi/Hwi.kt:51-64 | a turn of the loop that passes takes an observer from one payload due to the next, or to nothing left, with the reply fed and the code surfaced in between, and no turn breaks the order |
| Driving.Balance | android/lib/src/main/kotlin/com/wizardsardine/bhwi/Hwi.kt:51-81 | in every log that respects the order, calls and replies fed back are what was asked for and replied, less the one owed |
| Driving.CommandIsFaithful | android/lib/src/main/kotlin/com/wizardsardine/bhwi/Hwi.kt:38-81 | every command respects the order, in which a known pairing code must be surfaced before the next call or the end, and destroys its interpreter once, last; a response means every requested payload went to its recipient, in order, and every reply was fed back |
| Driving.EveryCodeIsSurfaced | android/lib/src/main/kotlin/com/wizardsardine/bhwi/Hwi.kt:59-63 | whatever code the slot held beforehand, the codes it holds in turn are those the caller is given, in order, and the one it still holds; none is left when a response comes out with pairing configured |
| Driving.LearnedCodesIff | android/lib/src/main/kotlin/com/wizardsardine/bhwi/Hwi.kt:53-64 | a command with a response surfaces exactly the codes that became known during it if and only if the slot was empty when it began or its first exchange put a new code there |
| Driving.CancelledCodeStays | android/lib/src/main/kotlin/com/wizardsardine/bhwi/Hwi.kt:57-62 | a command cancelled between exchange and poll surfaces nothing and leaves its code in the slot |
| Driving.OldCodeIsSurfaced | android/lib/src/main/kotlin/com/wizardsardine/bhwi/Hwi.kt:59-63 | a next command that hands its caller such a code although none became known during it |
| Facade.SessionIsSafe | android/lib/src/main/kotlin/com/wizardsardine/bhwi/HwiSession.kt:63-225 | over every interleaving: commands never overlap; every interpreter is built with the handle and mode accepted last, on an open session, from a live handle, with one entry mode, and for an account command only once a mode is chosen; KeepKey never enters on the device; superseded handles are cleared |
| Facade.ReconfigurationDoes | android/lib/src/main/kotlin/com/wizardsardine/bhwi/HwiSession.kt:65-83 | a reconfiguration that has the mutex, whatever other threads do, puts its handle and mode in force and clears an older handle exactly if the checks hold, and otherwise changes nothing |
| Facade.TryLockIff | android/lib/src/main/kotlin/com/wizardsardine/bhwi/HwiSession.kt:64-66 | inside the monitor it goes on if and only if no command has the mutex, and otherwise leaves with nothing changed |
| Facade.IdleReconfiguration | android/lib/src/main/kotlin/com/wizardsardine/bhwi/HwiSession.kt:63-84 | on an idle session a reconfiguration runs through and leaves the session idle, with its choice taken exactly if the checks hold |
| Facade.IdleCommand | android/lib/src/main/kotlin/com/wizardsardine/bhwi/HwiSession.kt:194-225 | on an idle session a command comes to drive an interpreter just built with the options in force, exactly if the session is open and an account command has a chosen mode |
| Facade.FreeDisconnect | android/lib/src/main/kotlin/com/wizardsardine/bhwi/HwiSession.kt:184-192 | a disconnect runs through, during a command as well: the session is closed and its handle cleared |
| Facade.NoDeadlock | android/lib/src/main/kotlin/com/wizardsardine/bhwi/HwiSession.kt:184-225 | while any call is unfinished some thread can take a step |
| Facade.DisconnectIsFinal | android/lib/src/main/kotlin/com/wizardsardine/bhwi/HwiSession.kt:184-192 | once the flag is set no run builds an interpreter or changes an option, except to drop the passphrase |
| Facade.RejectedChangesNothing | android/lib/src/main/kotlin/com/wizardsardine/bhwi/HwiSession.kt:65-80 | options change only by the monitor's owner, in a reconfiguration that passed every check or in a disconnect |
| Facade.EveryRunIsSafe | android/lib/src/main/kotlin/com/wizardsardine/bhwi/HwiSession.kt:194-225 | from any state that satisfies the invariant, every run keeps it |

## Left out

- The protocol machines of the `bhwi` crate, Noise and Coldcard cryptography, base64, BIP 32 and PSBT serialization: their code is not in the repository; the core answers are arbitrary.
- The parser behind the Specter decoder: it is an arbitrary state machine, and the chunking theorem assumes only that it is incremental.
- The rules for reading script pushes, for standard sighash values and for writing signatures: they are Bitcoin's own, written out in `PsbtGate` because the library that has them is not in the repository.
- The wtxid of the unsigned transaction: it stands for the transaction, that is, hashing is taken to be injective.
- Call depth: the scanner recurses once per nesting level, and a stack overflow on deeply nested input is not modelled.
- Memory: heap exhaustion is not modelled, and payload lengths are bounded by what a JVM array can hold.
- Endless channels: a notification stream or a device that is never ready forever is cut off by a failure at the end of the script.
- Overlapping calls on the links that have no guard of their own (Ledger, Coldcard, BitBox, Jade): the session serialises commands.
- Reference counts and threads behind the interpreter object: its mutex makes every call one step, and the lease protocol between objects is proved step by step in `Leases`.
- Memory ordering of the atomic flags: steps are sequentially consistent.
- Closing the noise and Coldcard handles on disconnect, and the remapping of the exceptions this causes in a running command.
- Refused bytes in `Retirement`: a call that reads bytes the code refuses may read on in the model before it aborts, which only adds runs; it can never complete.
- Fair scheduling: `NoDeadlock` says that some thread can go on, not that each one eventually does.
- The clock: deadlines of the Specter link expire at arbitrary suspension points.
- Validation of commands, names and policies, response conversion, descriptors and fee summaries: one-branch checks or calls into libraries that are not in the repository.
- Simulator adapters, generated bindings, build scripts and the sample application.
