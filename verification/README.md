# EasyIR: a model with proofs

EasyIR is a Home Assistant integration that sends and receives infrared remote-control codes through
Tuya TS1201 hubs. This project models the parts of it whose correctness is not visible in one function
body, and proves what they promise.

- **Payload codecs** (`Payload`, `TuyaChunk`, `FastLz`, `FastLzMeaning`, `TuyaLearn`,
  `Broadlink`, `BroadlinkPackets`, `AutoDetect`): timing
  lists as byte strings in three formats, and the detector that tells them apart. The FastLZ decoder is
  proved against a token grammar whose copies are defined one byte at a time; the doubling copy loop of
  the code is proved equal to that.
- **LG 28-bit frames** (`LgFrame`, `LgDecode`, `LgVerdicts`, `LgTimings`, `LgSend`): checksum, encoders, strict and
  pilot decoders, expansion to mark/space timings, and the send path composed with the chunk coder.
- **Service call pool** (`CallPool`, `CallPoolRuns`, `CallPoolSends`, `CallPoolTasks`,
  `ServiceCallPoolObject`): a state
  machine whose atomic events are the stretches of code between two suspension points; an invariant over
  every run; the object whose methods are those events; and a version with explicit worker tasks that
  refines the single-worker machine.
- **Signal log** (`EventLog`, `EventLogRows`, `EventLogPages`): the bounded log as a suffix of the full history, and its
  pages, also while entries arrive between page reads.
- **Remote ids and hub discovery** (`RemoteIds`, `Discovery`): the suffix search with its termination
  argument, and edge-triggered suggestions over runs of scans.

Bytes are integers below 256. Bit operations are division and remainder by powers of two, which is exact
for Python's integers. Errors the code raises are `Err` values. Texts the code normalises and compares
with fixed names (modes, fan speeds, actions, flags) are datatypes that keep any other text by name.

Three places where the code does less than one might expect; each is stated exactly as it is:

- The pool takes a call from its queue *before* it paces, so it can send a call while a preferred one is
  queued. `CallPoolRuns.UrgentCallWaitsOnlyIfLate` says exactly when: the sent call was in flight already
  when the other arrived, and is less urgent. `CallPoolRuns.OnlyOneGoesFirst` bounds it to that one call,
  `CallPoolRuns.UnpacedSendIsLeast` ties it to the pacing guard, and
  `CallPoolRuns.UrgentArrivalDuringPacing` and `CallPoolRuns.PacingIsReachable` exhibit it.
- The log iterator tests its limit after yielding. A limit of zero or less therefore yields one row if a
  matching row is left behind the offset, although the documentation says at most `limit` rows;
  `EventLog.AtMostLimitRows` says exactly when it keeps to that, `EventLog.LimitZeroYieldsOneRow` is an
  input where it does not.
- A closing LG gap quantises to the Broadlink trailer mark and is always lost on that transport; the
  frame search of the test suite then finds nothing, because it wants one entry after the frame, though
  the 28 bits are there to read; `LgTimings.BroadlinkTransport` proves both for every code.

## Model

| member | source | states |
|---|---|---|
| Payload.FlattenTimings | custom_components/easyir/helpers.py:24-27 | the flattening loop yields two little-endian bytes per clamped magnitude |
| Payload.RebuildTimings | custom_components/easyir/helpers.py:54-62 | the word loop yields the 16-bit words with signs alternating from plus |
| Payload.WordsInvertWordBytes | custom_components/easyir/helpers.py:16-27 | reading the words of a flattened list gives it back with magnitudes clamped to 65535 and signs rebuilt from position |
| Payload.LittleEndian | custom_components/easyir/helpers.py:24-27 | the two bytes of a timing are its magnitude, low byte first, all ones beyond 16 bits |
| Payload.WordBytesInvertWords | custom_components/easyir/helpers.py:54-62 | any even number of bytes survives the passage through timings |
| Payload.SaturatedIsIdentity | custom_components/easyir/helpers.py:16-19 | clamping and re-signing changes nothing exactly on alternating lists that fit 16 bits |
| TuyaChunk.FrameBlocks | custom_components/easyir/helpers.py:29-33 | the block loop cuts a payload into length-prefixed blocks of at most 32 bytes |
| TuyaChunk.EncodeRawToTuya | custom_components/easyir/helpers.py:22-35 | the encoder as a whole |
| TuyaChunk.DecodeTuyaToRaw | custom_components/easyir/helpers.py:38-62 | the decoder as a whole, with its truncated-block and odd-byte errors |
| TuyaChunk.UnframeInvertsFrame | custom_components/easyir/helpers.py:29-49 | cutting into blocks and joining them again is the identity on every payload |
| TuyaChunk.FrameSize | custom_components/easyir/helpers.py:29-33 | one header byte for every 32 bytes begun |
| TuyaChunk.DecodesExactlyBlocks | custom_components/easyir/helpers.py:38-62 | a payload is accepted exactly if it is non-empty and spells blocks of 1 to 256 bytes, holding an even number of bytes in all, and is read as their words |
| TuyaChunk.Refusals | custom_components/easyir/helpers.py:43-53 | it is refused as odd exactly if it spells blocks with an odd number of bytes, as cut off exactly if it spells no blocks |
| TuyaChunk.RoundTrip | custom_components/easyir/helpers.py:22-62 | decode after encode gives every non-empty list back clamped and re-signed, and the list itself if and only if it alternates and fits 16 bits |
| FastLz.DoublingCopy | custom_components/easyir/helpers.py:350-356 | the re-slicing copy loop equals the byte-by-byte overlapping copy for every distance and length, never meets the empty-chunk error, and ends within nine rounds |
| FastLz.CopyClosedForm | custom_components/easyir/helpers.py:350-356 | appended byte j of a copy is byte j modulo the distance of the window it starts from |
| FastLz.ReadBackref | custom_components/easyir/helpers.py:338-347 | reading a back-reference, with extended length, distance bytes and truncation errors, agrees with the token grammar |
| FastLz.DecompressToken | custom_components/easyir/helpers.py:325-356 | one turn of the decompressor consumes one token or reports its error |
| FastLz.FastLzDecompress | custom_components/easyir/helpers.py:320-357 | the decompressor computes the specification function on every input |
| FastLz.CompressLiteral | custom_components/easyir/helpers.py:360-369 | the literal-only compressor writes the stream of 32-byte literal tokens, the last one possibly shorter |
| FastLz.LiteralTokensAreBlocks | custom_components/easyir/helpers.py:360-369 | that stream is byte for byte the chunk coder's blocks |
| FastLz.LiteralTokensMean | custom_components/easyir/helpers.py:360-369 | those tokens are well formed and mean the bytes they were cut from |
| FastLz.AcceptsWellFormed | custom_components/easyir/helpers.py:320-357 | every well-formed token list is accepted and yields its LZ77 meaning |
| FastLz.AcceptedIsWellFormed | custom_components/easyir/helpers.py:320-357 | every accepted stream spells a well-formed token list whose meaning is the output |
| FastLz.StreamBytesInjective | custom_components/easyir/helpers.py:325-347 | the format is unambiguous: two token lists never share a byte stream |
| FastLz.DecoderCorrect | custom_components/easyir/helpers.py:320-357 | a stream decodes to a result if and only if it spells a well-formed token list with that meaning, and that list is unique |
| FastLzMeaning.CopyRepeatsFromEnd | custom_components/easyir/helpers.py:350-356 | a copy leaves the output in place and appends bytes each equal to the one a distance back from the end, its own included |
| FastLzMeaning.CopyIsDetermined | custom_components/easyir/helpers.py:350-356 | and nothing else does |
| FastLzMeaning.DecodesWhatIsDescribed | custom_components/easyir/helpers.py:320-357 | a stream decodes to a result exactly if it spells tokens that describe the result from its first byte to its last: literals stand there, copies repeat what stands a distance before |
| FastLzMeaning.RunSample | custom_components/easyir/helpers.py:338-356 | literal 1 2 3 and a copy of three at distance one give 1 2 3 3 3 3 |
| FastLzMeaning.CopyLayout | custom_components/easyir/helpers.py:326-347 | the bytes of a short and of an extended copy, bit field by bit field |
| FastLzMeaning.StopsForCause | custom_components/easyir/helpers.py:325-347 | a refused stream begins with well-formed tokens, and the error names what is wrong with the rest |
| FastLz.OutputBound | custom_components/easyir/helpers.py:320-357 | output is at most 88 times the input |
| FastLz.OutputBoundIsTight | custom_components/easyir/helpers.py:338-356 | a three-byte back-reference reaches that bound |
| FastLz.AgreesWithChunks | custom_components/easyir/helpers.py:43-49 | on streams whose block headers are all below 32 both decoders extract the same bytes or both refuse |
| FastLz.FramesHaveLiteralHeaders | custom_components/easyir/helpers.py:363-368 | encoder output has only such headers |
| FastLz.DecompressInvertsCompress | custom_components/easyir/helpers.py:320-369 | decompression undoes compression on every byte string |
| TuyaLearn.CheckTimings | custom_components/easyir/helpers.py:301-317 | the plausibility loop accepts exactly lists of 3 to 8192 non-zero, alternating, bounded entries |
| TuyaLearn.PlausibleExactly | custom_components/easyir/helpers.py:301-317 | the check passes exactly lists of 3 to 8192 entries with marks of 1 to 200000 microseconds at even places and spaces as long at odd ones |
| TuyaLearn.EncodeRawToTuyaLearn | custom_components/easyir/helpers.py:65-74 | the learn encoder, with its error on an empty list |
| TuyaLearn.DecodeTuyaLearnToRaw | custom_components/easyir/helpers.py:77-89 | the learn decoder with all its errors |
| TuyaLearn.RoundTrip | custom_components/easyir/helpers.py:65-89 | the learn round trip gives the clamped, re-signed list exactly for 3 to 8192 entries without a zero, and is refused otherwise |
| TuyaLearn.AcceptsExactly | custom_components/easyir/helpers.py:77-89 | accepted are exactly the streams that inflate to 3 to 8192 whole words, none zero |
| TuyaLearn.Refusals | custom_components/easyir/helpers.py:65-89 | the encoder refuses the empty list only; each error of the decoder names its cause |
| TuyaLearn.DecodedSurvivesChunkTransport | custom_components/easyir/helpers.py:38-89 | whatever the learn decoder returns, the chunk coder carries unchanged |
| Broadlink.LastTrailer | custom_components/easyir/helpers.py:125 | the search returns the last trailer mark, or none if there is none |
| Broadlink.StripZeros | custom_components/easyir/helpers.py:128 | the strip removes exactly the zero bytes at the end |
| Broadlink.EncodeRawToBroadlink | custom_components/easyir/helpers.py:92-106 | the encoder: quantised one- or three-byte units between header and trailer |
| Broadlink.ReadTimings | custom_components/easyir/helpers.py:132-149 | the unit loop, with truncation error and padding tolerance |
| Broadlink.DecodeBroadlinkToRaw | custom_components/easyir/helpers.py:109-152 | the decoder with all its errors |
| BroadlinkPackets.BodyEndsAtMark | custom_components/easyir/helpers.py:123-128 | timings end where the zeros before the last trailer mark begin, whatever without a mark follows it |
| BroadlinkPackets.BodyWithoutMark | custom_components/easyir/helpers.py:123-128 | without a mark only zeros are taken away |
| BroadlinkPackets.DeclaredTrailerDecodes | custom_components/easyir/helpers.py:123-152 | a packet that declares trailer, padding and anything behind it decodes to the same timings as the encoder's packet |
| BroadlinkPackets.ReadsExactlySpelled | custom_components/easyir/helpers.py:132-149 | a window is accepted exactly if its body spells units of one or three bytes, and gives their times with alternating signs |
| BroadlinkPackets.WindowRefusals | custom_components/easyir/helpers.py:129-151 | a window is refused only because nothing is left of it or a unit is cut short; the check for an empty list is never reached |
| BroadlinkPackets.PacketRefusals | custom_components/easyir/helpers.py:111-131 | each error of the packet decoder names its own cause |
| BroadlinkPackets.EncodedFrame | custom_components/easyir/helpers.py:98-106 | an encoded packet's signature, zero byte, length field and closing trailer |
| BroadlinkPackets.StreamSize | custom_components/easyir/helpers.py:100-104 | units above 255 take three bytes, all others one |
| BroadlinkPackets.UnitsAreNearest | custom_components/easyir/helpers.py:97-99 | no count that can be sent comes closer to a timing than the one it is sent as |
| BroadlinkPackets.MicrosecondsAreNearest | custom_components/easyir/helpers.py:147 | no other microsecond comes as close to a count as the one it is read as |
| Broadlink.RoundsToNearestEven | custom_components/easyir/helpers.py:97-147 | rounding is to the nearest integer with ties to even, and nothing else is |
| Broadlink.EncodingTies | custom_components/easyir/helpers.py:97 | encoding meets a tie exactly at odd multiples of 4096 microseconds |
| Broadlink.DecodingNeverTies | custom_components/easyir/helpers.py:147 | decoding never meets one |
| Broadlink.QuantisationBound | custom_components/easyir/helpers.py:97-147 | quantising and reading back moves a timing by at most 15 microseconds exactly from 15 to 1995787 microseconds |
| Broadlink.UnitsAreFixed | custom_components/easyir/helpers.py:97-147 | every unit count from 1 to 65535 survives the trip through microseconds |
| Broadlink.RoundTrip | custom_components/easyir/helpers.py:92-152 | decode after encode gives the quantised list if and only if the payload is non-empty, fits the length field, contains no trailer mark and does not end in zero |
| Broadlink.CarriedWithinBound | custom_components/easyir/helpers.py:92-152 | then an alternating list arrives with its length and signs, and within 15 microseconds exactly the entries from 15 to 1995787 |
| Broadlink.ReencodesToSamePacket | custom_components/easyir/helpers.py:92-152 | then re-encoding what was decoded gives the same packet |
| Broadlink.PaddingToleranceIsDead | custom_components/easyir/helpers.py:128-142 | after the zero strip the trailing-padding break is never reached |
| Broadlink.FinalTrailerGapIsDropped | custom_components/easyir/helpers.py:123-128 | a last entry of 3333 units reads as the trailer and is lost; everything before it arrives |
| AutoDetect.DecodeAuto | custom_components/easyir/helpers.py:217-247 | the detector's cascade over the three base64 formats |
| AutoDetect.ReportsBroadlink | custom_components/easyir/helpers.py:217-247 | Broadlink timings are reported exactly if the Broadlink decoder gives them; so the last fallback never succeeds |
| AutoDetect.ReportsChunked | custom_components/easyir/helpers.py:217-230 | chunked timings are reported exactly if the chunk decoder gives them and no Broadlink window is declared |
| AutoDetect.ReportsLearned | custom_components/easyir/helpers.py:224-238 | a learn code is reported exactly if the learn decoder accepts it and the chunk decoder does not; none is lost or taken for Broadlink |
| AutoDetect.RefusesExactly | custom_components/easyir/helpers.py:217-247 | refused is exactly what declares a window the Broadlink decoder refuses, and what no decoder accepts |
| AutoDetect.TuyaEncodersAgree | custom_components/easyir/helpers.py:22-74 | both Tuya encoders produce identical bytes on non-empty input |
| AutoDetect.LiteralStreamsAreChunked | custom_components/easyir/helpers.py:197-247 | streams with headers below 32 are never taken for Broadlink or learn codes, and are reported with the timings the learn decoder would give |
| AutoDetect.TuyaOutputDetected | custom_components/easyir/helpers.py:197-230 | output of either Tuya encoder is reported as chunked with the right timings |
| AutoDetect.BroadlinkOutputDetected | custom_components/easyir/helpers.py:290-298 | Broadlink output commits to the Broadlink decoder exactly when its length field is not zero |
| AutoDetect.BroadlinkRoundTripThroughDetector | custom_components/easyir/helpers.py:197-247 | the detector returns a Broadlink-encoded list exactly when the Broadlink decoder does |
| LgFrame.SumNibblesLoop | custom_components/easyir/protocols/lg_universal/engine.py:60-65 | the accumulating loop sums the four nibbles modulo 16 |
| LgFrame.ChecksumByNibbles | custom_components/easyir/protocols/lg_universal/engine.py:68-70 | the checksum is the sum of frame nibbles 1 to 4 modulo 16 |
| LgFrame.OneNibbleBreaksFrame | custom_components/easyir/protocols/lg_universal/engine.py:60-74 | replacing any nibble of a frame with valid signature and checksum breaks one of them |
| LgFrame.OneBitBreaksFrame | custom_components/easyir/protocols/lg_universal/engine.py:60-74 | so does flipping any of the 28 bits |
| LgFrame.EncodedStateNibbles | custom_components/easyir/protocols/lg_universal/engine.py:77-159 | an encoded state is a genuine frame whose nibbles are checksum, fan, clamped temperature less 15, mode, zero, 8, 8 |
| LgFrame.SampleFrames | custom_components/easyir/protocols/lg_universal/engine.py:18-31 | the nibbles of five encoded states, covering every mode and fan code |
| LgVerdicts.ClampIsNearest | custom_components/easyir/protocols/lg_universal/engine.py:144-159 | the temperature sent is the nearest one from 16 to 30 |
| LgVerdicts.Aliases | custom_components/easyir/protocols/lg_universal/engine.py:90-159 | unknown modes are sent as cool, unknown speeds as automatic, medium as mid, and off as the off command |
| LgVerdicts.KnownCodes | custom_components/easyir/protocols/lg_p12rk/engine.py:76-113 | exactly five mode codes and five fan codes have a meaning, and the lowest fan code reads low |
| LgVerdicts.CodesReadBack | custom_components/easyir/protocols/lg_p12rk/engine.py:76-126 | every known mode and speed is read from the code it is sent as |
| LgVerdicts.FlipBitWeight | custom_components/easyir/protocols/lg_universal/engine.py:60-74 | flipping bit b adds or takes away its weight |
| LgDecode.StrictAcceptsOnlyGenuine | custom_components/easyir/protocols/lg_universal/engine.py:285-349 | the strict decoder accepts only frames with valid signature and checksum, its early off branch included |
| LgDecode.StrictAcceptsExactly | custom_components/easyir/protocols/lg_universal/engine.py:202-439 | without a flag set it accepts exactly the genuine frames with a known command word and, for state words, known mode and fan |
| LgVerdicts.StrictVerdict | custom_components/easyir/protocols/lg_universal/engine.py:202-439 | for every frame and every flag set, the one error of the strict decoder, or none, by the frame's nibbles and command word |
| LgVerdicts.StrictReport | custom_components/easyir/protocols/lg_universal/engine.py:305-439 | what else it reports of an accepted frame |
| LgDecode.PilotAcceptsExactlyGenuine | custom_components/easyir/assistants/pilot_lg.py:66-104 | the pilot detector accepts exactly those frames and reports the pilot decoder's state |
| LgVerdicts.PilotReads | custom_components/easyir/protocols/lg_p12rk/engine.py:128-158 | what the pilot decoder reads from any code, by nibbles |
| LgVerdicts.PilotDetects | custom_components/easyir/assistants/pilot_lg.py:66-110 | the pilot detector's branch, confidence and state for any code, by nibbles |
| LgDecode.OneNibbleErrorRefused | custom_components/easyir/protocols/lg_universal/engine.py:279-349 | a change confined to one nibble of a genuine frame is refused by both decoders under any flag set |
| LgDecode.OneBitErrorRefused | custom_components/easyir/protocols/lg_universal/engine.py:279-349 | every single-bit error in a genuine frame is refused by both |
| LgDecode.StateFrameDecodes | custom_components/easyir/protocols/lg_universal/engine.py:402-439 | genuine frames in the state command space with known mode and fan are accepted, and both engines read the fields their nibbles spell |
| LgDecode.AcceptedIsStateFrame | custom_components/easyir/protocols/lg_p12rk/engine.py:128-158 | conversely an accepted frame that reports a state is such a frame, is power-on, and the pilot engine reads the same fields |
| LgDecode.EncodedStateReadsBack | custom_components/easyir/protocols/lg_universal/engine.py:144-159 | encoding a state and decoding it strictly reports that state, unknown mode as cool, unknown fan as auto, temperature clamped to 16..30 |
| LgDecode.ReencodeIsProjection | custom_components/easyir/protocols/lg_p12rk/engine.py:161-177 | re-encoding an accepted HVAC frame clears bit 15, raises zero fan and temperature nibbles to one and recomputes the checksum; it is the identity exactly on frames already so, and idempotent |
| LgTimings.RawTimingsFromCode | custom_components/easyir/protocols/lg_universal/engine.py:168-177 | the synthesiser loop yields header, 28 mark/space pairs most significant first, and the gap: 59 entries |
| LgTimings.TimingsEntryByEntry | custom_components/easyir/protocols/lg_universal/engine.py:52-57 | every entry of a synthesised list in microseconds |
| LgTimings.ReadFrameAt | tests/test_lg_profile_matrix_roundtrip.py:153-179 | the reader's loop over 28 pairs with its width windows |
| LgTimings.ExtractFirstFrame | tests/test_lg_profile_matrix_roundtrip.py:148-186 | the search for the first genuine frame |
| LgTimings.FrameFoundExactly | tests/test_lg_profile_matrix_roundtrip.py:153-179 | a frame is found at an entry exactly if one of two headers stands there and 28 plausible pairs follow, and its bits are what the spaces tell |
| LgTimings.FirstFrameIsFirst | tests/test_lg_profile_matrix_roundtrip.py:148-186 | the search yields the first genuine frame, and nothing exactly if there is none |
| LgTimings.NearbyFrameReadsBack | tests/test_lg_profile_matrix_roundtrip.py:165-179 | any list within 15 microseconds of the synthesised frame reads back as the same 28 bits, for every code |
| LgTimings.ChunkTransport | custom_components/easyir/protocols/lg_universal/engine.py:168-177 | the chunk coder carries all 58 frame entries exactly and turns the gap into +65535 |
| LgTimings.ChunkTransportReadsBack | tests/test_lg_profile_matrix_roundtrip.py:148-186 | after chunk transport every code is read at the first entry, and the search finds it exactly when it is genuine |
| LgTimings.BroadlinkTransport | custom_components/easyir/protocols/lg_universal/engine.py:168-177 | after Broadlink transport every code arrives as 58 entries within 15 microseconds and the same bits are read |
| LgSend.CommandFrame | custom_components/easyir/protocols/lg_universal/engine.py:162-165 | the frame of any 16-bit command word is genuine and carries the word |
| LgSend.PowerDownIsOff | custom_components/easyir/protocols/lg_universal/engine.py:32-44 | power-down encodes to the off command's frame |
| LgSend.SpecialFrames | custom_components/easyir/protocols/lg_universal/engine.py:33-49 | each special action is sent as its command's nibbles between their sum and the signature |
| LgSend.SpecialFramesDiffer | custom_components/easyir/protocols/lg_universal/engine.py:33-49 | no two special actions share a frame |
| LgSend.OffFrameDecodes | custom_components/easyir/protocols/lg_universal/engine.py:305-333 | the off frame is reported as off and accepted exactly by receivers that permit `power_off` |
| LgSend.SpecialFrameDecodes | custom_components/easyir/helpers.py:504-530 | each special action's frame says what was asked and is accepted exactly by receivers that permit its flag |
| LgSend.TimerFrameDecodes | custom_components/easyir/protocols/lg_universal/engine.py:236-241 | timer and sleep words read back as the same timer and minutes, exactly for receivers that permit the flag |
| LgSend.SpecialAccepted | custom_components/easyir/helpers.py:504-530 | a special action is accepted exactly if a receiver with the profile's flags would accept its frame, power-down exactly if `power_down` is listed |
| LgSend.HvacAccepted | custom_components/easyir/helpers.py:532-567 | an HVAC request is accepted exactly if it is `off`, or a known action with all three parameters, each listed where the profile lists any, and a temperature in its range |
| LgSend.HvacAnswer | custom_components/easyir/helpers.py:532-574 | every HVAC request gets the error that names its cause, or the frame that spells it |
| LgSend.ResolvedCodeDecodes | custom_components/easyir/helpers.py:502-574 | the frame of every accepted request is genuine, accepted under the profile's flags plus the two basic ones, and reports the request |
| LgSend.EndToEnd | custom_components/easyir/helpers.py:502-574 | the same after synthesis, chunk encoding, chunk decoding and frame search |
| LgSend.ReportIsRequest | custom_components/easyir/helpers.py:549-573 | the report equals the request exactly when mode and fan are known by their own names and the temperature lies in 16..30 |
| CallPool.LeastIndex | custom_components/easyir/command_pool.py:105-114 | the heap yields a call to which no queued call is preferred |
| CallPool.AnswerAll | custom_components/easyir/command_pool.py:127-134 | answering sets every waiter that has no outcome and changes no other |
| CallPool.StepKeepsInv | custom_components/easyir/command_pool.py:67-139 | every event keeps the pool invariant |
| CallPool.CompleteKeepsCore | custom_components/easyir/command_pool.py:127-138 | so does the end of a send, failed or not, before the loop goes round |
| CallPool.TakenIsLeast | custom_components/easyir/command_pool.py:113-114 | what the worker takes is preferred to everything it leaves queued |
| CallPoolRuns.RunKeepsInv | custom_components/easyir/command_pool.py:67-139 | the invariant holds after every run |
| CallPoolRuns.ReachableIsInv | custom_components/easyir/command_pool.py:52-139 | in particular after every run from a new pool |
| CallPoolRuns.ArrivalJoinsOrEnqueues | custom_components/easyir/command_pool.py:88-109 | a caller whose key is live joins that call and changes nothing else; any other adds one call with its own request, key and priority at the back |
| CallPoolRuns.NoCallerLost | custom_components/easyir/command_pool.py:79-110 | every caller has an outcome or waits in exactly one live call, the one it joined, with its key, and then a worker is alive |
| CallPoolRuns.CallersAddUp | custom_components/easyir/command_pool.py:79-134 | callers issued = callers with an outcome + callers waiting |
| CallPoolRuns.OutcomesAreFinal | custom_components/easyir/command_pool.py:127-134 | over whole runs an outcome never changes, so nobody is answered twice |
| CallPoolRuns.AnswersMatchKeys | custom_components/easyir/command_pool.py:82-134 | a result or exception comes from exactly one send, with the caller's key, or its very request if it has no key; a result from a send that succeeded, an exception from one that failed |
| CallPoolSends.SendsCarryFirstRequest | custom_components/easyir/command_pool.py:86-126 | after every run each send carries the request, key and priority of one caller, the first given its number |
| CallPoolSends.CallsCarryFirstRequest | custom_components/easyir/command_pool.py:86-105 | so does every call still queued or in flight |
| CallPoolSends.AnswersCarryRequest | custom_components/easyir/command_pool.py:82-134 | whoever is answered is answered by a send of its own request, or of that of an earlier caller with the same key |
| CallPoolSends.CancelIsIsolated | custom_components/easyir/command_pool.py:127-134 | over every run a caller that gives up changes nothing but its own outcome |
| CallPoolSends.StepAfterCancel | custom_components/easyir/command_pool.py:67-139 | no event of others depends on whether a caller has given up |
| CallPoolRuns.KeylessAnswersAreSeparate | custom_components/easyir/command_pool.py:82-134 | two callers share a result or an exception only if they share a key |
| CallPoolRuns.OneLiveCallPerKey | custom_components/easyir/command_pool.py:88-107 | at most one call per key is queued or in flight |
| CallPoolRuns.FailureIsIsolated | custom_components/easyir/command_pool.py:127-138 | over every run: had a send failed, the same events could have followed, to the same queue, calls, keys, worker, times and callers, with only its record and its own waiters' outcomes different |
| CallPoolRuns.StepAfterFailure | custom_components/easyir/command_pool.py:67-139 | no later event depends on whether an earlier send failed |
| CallPoolRuns.FinishTouchesOneCall | custom_components/easyir/command_pool.py:127-138 | the end of a send records its times, removes its call and key, leaves all others, and gives exactly its unresolved waiters the result, or the exception if it failed |
| CallPoolRuns.OvertakenOnlyByUrgent | custom_components/easyir/command_pool.py:93-114 | over whole runs a call is overtaken only by strictly more urgent ones; equal priorities are sent in enqueue order |
| CallPoolRuns.UrgentCallWaitsOnlyIfLate | custom_components/easyir/command_pool.py:86-126 | over the whole time a new call is queued, the call in flight is less preferred exactly if it was in flight already when the new one arrived and is less urgent |
| CallPoolRuns.ArrivalBehindLessUrgent | custom_components/easyir/command_pool.py:86-109 | at the arrival: the new call is queued behind a less preferred call exactly if it is more urgent than the one in flight |
| CallPoolRuns.OnlyOneGoesFirst | custom_components/easyir/command_pool.py:112-126 | a call taken while another is queued is preferred to it, so at most the one in flight at an arrival goes first |
| CallPoolRuns.PreferredAfterTaking | custom_components/easyir/command_pool.py:113-126 | while a call is in flight a queued one is preferred to it exactly if it was enqueued after the taking and is more urgent |
| CallPoolRuns.UnpacedSendIsLeast | custom_components/easyir/command_pool.py:113-126 | a taken call is sent at once exactly if the interval has passed, and then nothing preferred is queued at the send |
| CallPoolRuns.TakenCallIsLeast | custom_components/easyir/command_pool.py:113-114 | at the moment of taking nothing queued is preferred |
| CallPoolRuns.UrgentArrivalDuringPacing | custom_components/easyir/command_pool.py:114-118 | from every pacing state every more urgent new call is still queued when the other call's send starts |
| CallPoolRuns.PacingIsReachable | custom_components/easyir/command_pool.py:115-118 | with any positive interval and any clock, a first or second call has to pace |
| CallPoolRuns.SecondCallPaces | custom_components/easyir/command_pool.py:115-138 | a call that arrives within the interval after a finished send paces |
| CallPoolRuns.TurnPacesExactly | custom_components/easyir/command_pool.py:115-118 | the worker paces exactly when the interval has not passed, and then exactly until it has |
| CallPoolSends.FirstTurn | custom_components/easyir/command_pool.py:52-118 | a new pool counts its first interval from clock zero, a negative interval as zero |
| CallPoolSends.SendStartsNow | custom_components/easyir/command_pool.py:112-126 | a send starts at the clock reading of the event that starts it |
| CallPoolSends.WakeStartsSend | custom_components/easyir/command_pool.py:117-126 | a paced send starts when the worker wakes, and nothing else changes |
| CallPoolRuns.SendsArePaced | custom_components/easyir/command_pool.py:115-138 | each send starts at least the minimum interval after the previous one ended |
| CallPoolRuns.SendsSpanIntervals | custom_components/easyir/command_pool.py:115-138 | n sends span at least n-1 intervals whatever arrives in between |
| CallPoolRuns.WaitingMeansWorkerCanMove | custom_components/easyir/command_pool.py:108-113 | while somebody waits some worker event is possible |
| CallPoolRuns.QuietRunDrains | custom_components/easyir/command_pool.py:112-139 | without arrivals the worker makes boundedly many turns, and where it can make no more everybody has an outcome |
| CallPoolTasks.TaskStepRefines | custom_components/easyir/command_pool.py:108-139 | with worker tasks explicit, every step is a step of the single-worker machine |
| CallPoolTasks.TaskRunRefines | custom_components/easyir/command_pool.py:108-139 | every run with explicit tasks is a run of the single-worker machine |
| CallPoolTasks.AtMostOneWorker | custom_components/easyir/command_pool.py:108-139 | in every run at most one worker task and one send are active, and a live call implies a live worker |
| CallPoolTasks.TaskPoolIsReachable | custom_components/easyir/command_pool.py:108-139 | so what a new pool with explicit tasks can reach is reachable for that machine, and all results above hold of it |
| ServiceCallPoolObject.ServiceCallPool.constructor | custom_components/easyir/command_pool.py:52-65 | a new pool is empty, with a non-negative interval |
| ServiceCallPoolObject.ServiceCallPool.AsyncCall | custom_components/easyir/command_pool.py:79-110 | a call joins or enqueues as the state machine says and keeps the invariant |
| ServiceCallPoolObject.ServiceCallPool.NextTurn | custom_components/easyir/command_pool.py:113-118 | the head of the worker loop: stop, pace or send |
| ServiceCallPoolObject.ServiceCallPool.ResolveWaiters | custom_components/easyir/command_pool.py:131-134 | the result loop resolves exactly the unresolved futures in the list |
| ServiceCallPoolObject.ServiceCallPool.RaiseToWaiters | custom_components/easyir/command_pool.py:127-130 | so does the exception loop, with the exception |
| ServiceCallPoolObject.ServiceCallPool.Settle | custom_components/easyir/command_pool.py:127-134 | the two branches: result or exception to the waiters |
| ServiceCallPoolObject.ServiceCallPool.Conclude | custom_components/easyir/command_pool.py:120-138 | branches and what follows either of them, as one transition |
| ServiceCallPoolObject.ServiceCallPool.AfterSend | custom_components/easyir/command_pool.py:120-139 | the end of a send and the next turn are one step of the machine |
| EventLog.IrEventLog.constructor | custom_components/easyir/signal_log/event_log.py:47-49 | a new log is empty with capacity at least one |
| EventLog.IrEventLog.Append | custom_components/easyir/signal_log/event_log.py:51-56 | after an append the log is still the last max-events entries of the full history |
| EventLog.IterRows | custom_components/easyir/signal_log/event_log.py:74-89 | the counting loop yields take-limit of drop-offset of the filtered reversed log, with the limit raised to one and the offset to zero |
| EventLogRows.ListsWantedNewestFirst | custom_components/easyir/signal_log/event_log.py:74-82 | a listing holds every entry that meets the criteria once, at its own place, newest first, and nothing else |
| EventLogRows.PageRow | custom_components/easyir/signal_log/event_log.py:83-89 | row i of a page is row offset + i of the listing |
| EventLog.AtMostLimitRows | custom_components/easyir/signal_log/event_log.py:69-89 | at most `limit` rows are yielded exactly if the limit is one or more, or no matching row is left behind the offset |
| EventLog.LimitZeroYieldsOneRow | custom_components/easyir/signal_log/event_log.py:74-89 | limit zero, offset zero and one matching row yield that row |
| EventLog.IrEventLog.GetPage | custom_components/easyir/signal_log/api.py:129-148 | the endpoint's page, and has-more true exactly when a later row exists |
| EventLogPages.PagesConcatenate | custom_components/easyir/signal_log/api.py:129-148 | pages read while more is reported concatenate to the whole filtered listing |
| EventLogPages.LogIsSuffixOfHistory | custom_components/easyir/signal_log/event_log.py:51-56 | after any sequence of appends the log is a suffix of the full history |
| EventLogPages.AppendsShiftRows | custom_components/easyir/signal_log/event_log.py:51-89 | appends put new matching rows in front and cut old ones at the end, nothing else |
| EventLogPages.NoSurvivingRowSkipped | custom_components/easyir/signal_log/event_log.py:69-89 | a reader of successive pages, with appends before each, who reads until nothing is left is shown every row that was there at the start and still is at the end, at the place on a page that this row has moved to |
| RemoteIds.DecimalInjective | custom_components/easyir/ui_api.py:91-93 | different indices have different decimal texts |
| RemoteIds.DecimalValue | custom_components/easyir/ui_api.py:91-93 | a decimal text has digits only, no leading zero, and stands for its number |
| RemoteIds.FindFreeSuffix | custom_components/easyir/ui_api.py:90-93 | the search ends within as many tries as there are existing ids and returns the least free suffix |
| RemoteIds.UiNextRemoteUniqueId | custom_components/easyir/ui_api.py:76-93 | the panel's allocator meets the specification |
| RemoteIds.FlowNextRemoteUniqueId | custom_components/easyir/config_flow.py:932-947 | the config flow's allocator meets the same specification |
| RemoteIds.NextIdUnique | custom_components/easyir/config_flow.py:932-947 | the specification has one solution, so both copies compute the same id, and it is free |
| RemoteIds.AllocatedIdForm | custom_components/easyir/ui_api.py:76-93 | an allocated id is hub id, underscore and slug, followed by nothing if that is free, else by an underscore and the least free number from two on |
| RemoteIds.ExistingIdsAreRemoteIds | custom_components/easyir/ui_api.py:84-88 | the ids in use are exactly the non-empty ones of the remotes |
| RemoteIds.AllocatedIdIsNew | custom_components/easyir/ui_api.py:76-93 | an allocated id differs from the id of every remote there is, wherever it came from |
| RemoteIds.RunKeepsDistinct | custom_components/easyir/ui_api.py:76-93 | over any run of additions and removals remote ids that start pairwise distinct stay so |
| RemoteIds.RunAddsNoCopy | custom_components/easyir/ui_api.py:76-93 | from any start, no id ends on more than one remote unless it started on as many |
| RemoteIds.AllocatedIdIsSeen | custom_components/easyir/ui_api.py:84-88 | an allocated id takes part in every later search |
| Discovery.HubDiscovery.DiscoverHubs | custom_components/easyir/discovery.py:58-91 | a scan suggests the first device of every new address and updates the prompted set, for any address normalisation |
| Discovery.FirstNewIsExact | custom_components/easyir/discovery.py:69-88 | exactly the available addresses that are neither configured nor prompted are suggested, each once |
| Discovery.SuggestsFirstDevices | custom_components/easyir/discovery.py:69-88 | suggested, in device order, are the first devices of their addresses |
| Discovery.PromptedIsDiscoverable | custom_components/easyir/discovery.py:67-91 | after a completed scan the prompted set is available minus configured, whatever came before |
| Discovery.SuggestionsAreEdges | custom_components/easyir/discovery.py:58-91 | in every run a hub is suggested exactly when it is discoverable now and was not at the end of the previous scan |

## Left out

- Base64 and JSON: payloads are the decoded bytes; base64 text never parses as a JSON list, so the detector starts at its Broadlink test, and no bytes count as the empty-payload error. Text that is not empty but decodes to no bytes is not distinguished.
- Encoding hints, transcoding by name and profile files: dispatch over the coders modelled here.
- Floating point: rounding is exact on integers because 8192 is a power of two and 269 is odd; the overflow Python raises for timings beyond the range of a float is not modelled.
- LgDecode.ReencodeIsProjection: stated for 28-bit codes; both decoders mask their argument first.
- The feature dictionary keeps the command word as a number, not as text, and the reported temperature as an integer.
- LgTimings.ExtractFirstFrame: the header and pair reader comes from the test suite, which is the only place the repository reads timings back to a frame.
- LG request texts: stripping and lower-casing happen before the model starts.
- The pool's clock, heap and event loop: clock readings that never go back, removal of the least entry, and atomic events; a sleep lasts at least as long as asked.
- Cancellation of the worker task and a sleeper that raises: both lie outside the original's handler and would leave waiters unanswered.
- The dedupe key is an opaque value; its canonical JSON text is not built. A caller that joins a pending call does not change that call's priority.
- EventLog.IterRows: the generator is run to its end, so entries appended while it is suspended are not modelled.
- Discovery: a request made during a running scan is dropped by the original, so nothing is claimed about every change being seen; the configured set is read once per scan.
- Discovery's address normalisation is a parameter; lower case and spaces are not spelled out.
- RemoteIds.RunKeepsDistinct: migration gives remote ids without the allocator; it runs before, and what it gives is part of the start.
- What a service returns or raises is not modelled beyond which send it came from.
- Home Assistant plumbing, config-flow forms, HTTP views, the learn fallback chain, room policy, device cleanup, profile caching, remote catalogs, migration and guided-pairing scores: short filters or single branches.
