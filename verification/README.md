# Verified model of the OpenIPC mobile ground station core

This project models the portable core of the ground station in Dafny and proves
what it does on all inputs and over all runs:

* **RTP depacketiser** (`Rtp*.dfy`): the header parser, the H.264 and H.265 payload
  formats, reassembly across packets, and codec detection. The class
  `RtpDepacketizer` updates the same fields as the source and is proved against a
  three-field reassembly machine. A sender is modelled next to it, and the two are
  joined by a lossy channel. For every stream and every loss, recovery is exact if
  and only if no packet closes a span that sequence numbers cannot tell from an
  unbroken one. For every loss, all streams are recovered if and only if no run of
  packets lost between two arrivals has a length that is a positive multiple of 2^16;
  otherwise a stream is constructed from which the receiver makes up a NAL unit that
  was never sent.
* **MAVLink framer** (`Mavlink*.dfy`): the scanning loop over a growing buffer, the
  pure scan it refines, and why neither the cut of the stream nor the two size
  guards matter; the telemetry decoder behind it, field by field over whole
  histories, and the router's two uses of the framer.
* **MSP DisplayPort decoder** (`Msp*.dfy`): the fourteen-state byte automaton, its
  two checksums, and the character grid, whose row-major vector is proved to
  implement a two-dimensional canvas.
* **Adaptive link** (`Alink*.dfy`): the Kalman filter, the score, the FEC
  escalation, keyframe requests and the wire format. Doubles are modelled as reals.
* **wfb addressing and signal accounting** (`Wfb*.dfy`): the uplink frame builder
  against the frame classifier, and the per-path accumulators against the samples
  of an interval.

Bytes are integers from 0 to 255; masks and shifts are written as quotients and
remainders. `Masks.dfy` writes the RTP parser, the codec detection, the fragment
headers, the single-byte fields and the 16-, 24- and 32-bit words with the source's
operators and shows that they decide the same on every input. Only the MSP checksums
work on bit vectors throughout. Where the source calls back, the class appends to a
sequence field. Wherever a class method is proved against a function (`View() ==
old(View()).Push(data)`), the laws are lemmas about that function; `RtpLaws`,
`MavlinkFields`, `MspDisplays`, `MspWires` and `AlinkLaws` say what it computes without
it: by units, numbers, cells, bytes and equations written out.

Findings, where the code does not do what its comments or a natural reading promise:

* A run of 65,536 lost packets (or a multiple) between two fragments is not noticed,
  and a unit is emitted that was never sent (`RtpAliasing.EndsSplice`,
  `RtpAliasing.RecoversExactlyWhenUnaliased`).
* Codec detection takes many well-formed H.264 packets for H.265, and some of
  reserved H.265 types for H.264, although the comment at
  core/src/rtp/depacketizer.cpp:288-291 calls the test sufficient; exactly which is
  `RtpDetection.GivesAway` (`RtpDetection.DetectsExactly`,
  `RtpDetection.MistakesSliceForH265`, `RtpDetection.MistakesReservedForH264`).
* Both size guards of the MAVLink framer are unreachable
  (`MavlinkFramers.MavlinkFramer.Push`).
* The telemetry decoder counts the signature of a signed frame as payload; exactly
  which packets are misread is `MavlinkTelemetry.FaithfulExactly`. It also ignores
  that version 2 of the protocol cuts trailing zeros: a shortened message is mostly
  dropped, and when signed read from its checksum. When it does no harm is
  `MavlinkTelemetry.CutHarmlessExactly`.
* The FEC change leaves 0..5, and falls as noise rises, for exactly those tunings
  whose ramp does not fit (`AlinkScores.RampFits`); a single report can show it
  (`AlinkControllers.MisfitReached`).
* The difference between the signal and the synthetic noise floor handed on is the
  driver's SNR exactly when that floor fits in a signed byte
  (`WfbSignals.NoiseFloorExactly`).
* BATTERY_STATUS is decoded in the order its fields are declared, while MAVLink
  serialises fields by size, as the decoder assumes for every other message: voltage
  and current come from other fields, and a full battery reads as zero volts
  (`MavlinkTelemetry.MisreadsBattery`, `MavlinkTelemetry.ReadsFullBatteryAsEmpty`).
* Without process noise the filter's convergence is harmonic, not geometric
  (`AlinkFilters.ConvergesHarmonically`).
* A link identity of 2^24 or more makes a station deaf to its own frames
  (`WfbAddressing.HearsItselfExactly`).

`dafny verify dfyconfig.toml` checks the whole project.

## Model

| member | source | states |
|---|---|---|
| RtpPackets.AcceptBuilt | core/src/rtp/depacketizer.cpp:22-79 | Round trip: for every legal RTP header (CSRCs, extension, padding) the parser and the payload size give back sequence, timestamp, marker and exactly the payload |
| RtpPackets.ParseBuilt | core/src/rtp/depacketizer.cpp:22-67 | The parser accepts every legal header and finds the payload right behind CSRC list and extension |
| RtpLaws.AcceptsExactlyBuilt | core/src/rtp/depacketizer.cpp:22-79 | Of any bytes the receiver accepts exactly the packets RFC 3550 lets a sender build with a payload, and reads them for what they are |
| RtpDepacketizers.RtpDepacketizer.EmitNal | core/src/rtp/depacketizer.cpp:93-108 | One NAL unit behind 0, 0, 0, 1, with the timestamp and marker given, is handed out and counted, unless it is empty or no callback is installed |
| RtpDepacketizers.RtpDepacketizer.EmitAggregated | core/src/rtp/depacketizer.cpp:122-136 | The loop over an aggregation packet emits exactly the sized units up to the first unsound size and drops once if there is one |
| RtpDepacketizers.RtpDepacketizer.HandleH264 | core/src/rtp/depacketizer.cpp:110-173 | The in-place handler does what the role of the payload (whole, fragment, too short, unsupported) asks of the reassembly |
| RtpDepacketizers.RtpDepacketizer.HandleH265 | core/src/rtp/depacketizer.cpp:175-237 | The same for H.265 with its two-byte headers |
| RtpDepacketizers.RtpDepacketizer.Receive | core/src/rtp/depacketizer.cpp:254-274 | Sequence check, then detection, then handling; a gap gives up the fragment in flight |
| RtpDepacketizers.RtpDepacketizer.Push | core/src/rtp/depacketizer.cpp:239-275 | The whole method, with all counters and the return value; keeps that a fragment is held exactly when its buffer is non-empty and that the NAL counter counts what was emitted |
| RtpLaws.CountsExactly | core/src/rtp/depacketizer.cpp:239-275 | After any trace, by the history alone: what one packet adds to the packet, drop and broken-fragment counters, and whether it is reported as taken |
| RtpLaws.FragmentPartsH264 | core/src/rtp/depacketizer.cpp:138-168 | Start and end bit, body and rebuilt header of any H.264 fragment, bit by bit |
| RtpLaws.FragmentPartsH265 | core/src/rtp/depacketizer.cpp:204-233 | The same for H.265 with its two-byte header |
| RtpLaws.AggregateTiles | core/src/rtp/depacketizer.cpp:122-136 | Any aggregation packet is size-prefixed units and a rest, and unsound exactly when the rest announces nothing or more than there is |
| RtpSender.ClassifiesItem | core/src/rtp/depacketizer.cpp:110-233 | Every packet of every valid single, aggregation or fragmentation sending is read back as what it is, with the original NAL header rebuilt |
| RtpSender.ReadsSizePrefixed | core/src/rtp/depacketizer.cpp:122-136 | Size-prefixed NAL units behind any prefix are recovered one by one |
| RtpRecovery.WholeThrough | core/src/rtp/depacketizer.cpp:116-136 | A packet of whole NAL units emits them on arrival, whatever packets came before it and whatever was lost |
| RtpRecovery.SplitInFull | core/src/rtp/depacketizer.cpp:138-168 | A fragmented NAL unit all of whose packets arrive in sequence is emitted with its header and all bodies, whatever came before it |
| RtpRecovery.ItemThrough | core/src/rtp/depacketizer.cpp:110-233 | One sending, behind any packets at all: its units come out if and only if all its packets arrived - or, exactly when its last packet splices, one unit too many |
| RtpRecovery.StreamThrough | core/src/rtp/depacketizer.cpp:239-275 | A stream behind any packets at all: exactly what is recoverable comes out, unless some packet splices, and then strictly more |
| RtpRecovery.RecoversExactlyUnlessSpliced | core/src/rtp/depacketizer.cpp:239-275 | Per stream and per loss, on bytes, for any first sequence number: exactly the NAL units all of whose packets arrived, in order, byte for byte, if and only if no packet splices |
| RtpLaws.UnitByUnit | core/src/rtp/depacketizer.cpp:93-108 | Then the k-th unit of an item received in full stands right behind those of the items before it, is 0, 0, 0, 1 and the unit, and has the timestamp and marker of the item's last packet; and there are no others |
| RtpAliasing.ExactRecovery | core/src/rtp/depacketizer.cpp:239-275 | Which holds for every stream when no run lost between two arrivals is a positive multiple of 2^16 |
| RtpAliasing.ShortRunsUnaliased | core/src/rtp/depacketizer.cpp:254-261 | Losing only runs shorter than 65,536 satisfies the condition for exact recovery |
| RtpAliasing.EndsSplice | core/src/rtp/depacketizer.cpp:254-261 | When all packets between a starting and an ending fragment are lost and their number is a multiple of 2^16, the header and the two bodies are emitted as one unit, whatever came before |
| RtpAliasing.RecoversExactlyWhenUnaliased | core/src/rtp/depacketizer.cpp:254-261 | For a loss pattern: every stream is recovered exactly; every unit handed out is one of the stream, with its timestamp and marker; no unit has bytes that were never sent - each if and only if no run lost between two arrivals has a length that is a positive multiple of 2^16 |
| RtpSplicing.Remember | core/src/rtp/depacketizer.cpp:138-168 | One packet more on any history: the held fragment stays the assembly of the one open span of consecutive packets since the latest start |
| RtpSplicing.EmitsExactlyCompleteSpans | core/src/rtp/depacketizer.cpp:138-261 | On any trace of any bytes the output equals a definition over the history alone: whole units, and one assembled unit for each end packet that closes a span of consecutive sequence numbers, behind 0, 0, 0, 1 and with the timestamp and marker of the packet that brought or closed them |
| RtpDetection.DetectionRefinesDeclaration | core/src/rtp/depacketizer.cpp:263-274 | An undeclared receiver equals, in output, state and counters, one declared with the detected codec and fed from the first detectable packet on, plus one drop for every packet before |
| RtpLaws.DetectsFirst | core/src/rtp/depacketizer.cpp:263-274 | Told no codec, a packet that gives none away is dropped and refused; one that does is treated, result included, as if the codec had been declared just before |
| RtpDetection.UndeclaredRecovery | core/src/rtp/depacketizer.cpp:263-274 | Told no codec, the receiver loses the arrivals before the first detectable one; if that one gives its codec away, the rest is recovered exactly, unless it is spliced |
| RtpDetection.RecoversUndeclared | core/src/rtp/depacketizer.cpp:263-274 | So it does every stream all of whose items give their codec away, whatever is lost |
| RtpDetection.DetectsExactly | core/src/rtp/depacketizer.cpp:277-305 | For every packet of every valid sending of either codec with a clean header: it is recognised if and only if it gives its codec away, a condition on the NAL header, the kind of packet and at most one more byte |
| RtpDetection.DetectsH264Exactly | core/src/rtp/depacketizer.cpp:288-303 | An H.264 payload is recognised if and only if its second byte has no low bits or its importance and type are outside three ranges; otherwise it is taken for H.265 |
| RtpDetection.DetectsH265 | core/src/rtp/depacketizer.cpp:292-297 | The packets of every valid H.265 sending, rebuilt fragment headers included, are recognised if and only if they are not single NAL units of the reserved types 41 to 47, which the receiver passes on |
| RtpDetection.MistakesSliceForH265 | core/src/rtp/depacketizer.cpp:288-297 | A valid H.264 slice that is taken for H.265 |
| RtpDetection.MistakesReservedForH264 | core/src/rtp/depacketizer.cpp:292-302 | A valid H.265 unit of a reserved type that is taken for H.264 |
| Masks.ParsesMasked | core/src/rtp/depacketizer.cpp:22-67 | The parser written with shifts, masks and bitwise or, timestamp included, returns the same header or refusal on every input |
| Masks.DetectsMasked | core/src/rtp/depacketizer.cpp:286-303 | The same for codec detection |
| Masks.FragmentMasked | core/src/rtp/depacketizer.cpp:143-153 | Start and end bits and the rebuilt NAL header of a fragment of either codec are those of the masks |
| Masks.FieldsMasked | core/src/rtp/depacketizer.cpp:114-126 | NAL types, sizes, the signed and armed flags and the font page are those of the masks |
| Masks.Word24Masked | core/src/mavlink/router.cpp:115-118 | Three bytes shifted and or-ed together are the 24-bit message number |
| Masks.BytesMasked | gslib/src/main/cpp/ground_station.cpp:205-210 | A 32-bit word shifted down and masked byte by byte is its big-endian form |
| MavlinkFramers.MavlinkFramer.Push | core/src/mavlink/router.cpp:74-140 | The loop over the buffer hands out, skips and keeps exactly what the pure scan of residue and chunk does; the oversize branch and the reset guard are never taken, and fewer than 280 bytes are kept |
| MavlinkFramers.FrameLength | core/src/mavlink/router.cpp:86-104 | No announced length is shorter than header and checksum or longer than the maximum frame |
| MavlinkStreams.ScanConcat | core/src/mavlink/router.cpp:74-134 | Scanning a stream is scanning a front part and then the rest behind its residue |
| MavlinkStreams.ChunkIndependence | core/src/mavlink/router.cpp:74-140 | However a stream is cut, messages, dropped bytes and residue are those of one push of the whole |
| MavlinkStreams.ScanReads | core/src/mavlink/router.cpp:77-130 | Any mixture of whole frames and non-magic bytes, followed by an unfinished frame, is read back exactly as that |
| MavlinkStreams.ScanTiles | core/src/mavlink/router.cpp:77-139 | Conversely every byte string is whole frames, skipped non-magic bytes and an unfinished frame shorter than 280 bytes, and the scan reports exactly those |
| MavlinkStreams.Conservation | core/src/mavlink/router.cpp:74-140 | Bytes pushed equal bytes handed out plus bytes dropped plus bytes kept, over any chunks |
| MavlinkStreams.PacketIsFrame | core/src/mavlink/router.cpp:86-123 | Version 1, version 2 and signed version 2 packets are one frame each and read back with their identities and 24-bit message number |
| MavlinkStreams.FrameIsPacket | core/src/mavlink/router.cpp:86-123 | Conversely every whole frame is a packet, and is read as that |
| MavlinkStreams.PartialExactly | core/src/mavlink/router.cpp:88-109 | What is kept for later is exactly the proper beginnings of packets |
| MavlinkStreams.TrafficRecovered | core/src/mavlink/router.cpp:74-140 | Packets of every kind between filler, in any chunks, arrive exactly and in order, and the dropped count is the filler's length |
| MavlinkStreams.NoiseSettles | core/src/mavlink/router.cpp:74-140 | After any history, 279 bytes of noise leave nothing unfinished |
| MavlinkStreams.RecoversAfterNoise | core/src/mavlink/router.cpp:74-140 | Resynchronisation: behind any history and 279 bytes of noise, all packets sent are received exactly, in any chunks |
| MavlinkTelemetry.TelemetryDecoder.Consume | core/src/mavlink/router.cpp:144-238 | Every field, of all 21, is what the message writes to it or else unchanged; short and unknown messages write nothing but the validity flag |
| MavlinkFields.DecodesHeartbeat | core/src/mavlink/router.cpp:157-167 | The whole state after a heartbeat, from the fields sent; armed exactly when the base mode is 128 or more |
| MavlinkFields.DecodesSysStatus | core/src/mavlink/router.cpp:169-177 | The whole state after a system status: voltage, signed current and signed percentage sent in two's complement are read back |
| MavlinkFields.DecodesAttitude | core/src/mavlink/router.cpp:179-186 | The whole state after an attitude: the bits of roll, pitch and yaw |
| MavlinkFields.DecodesPosition | core/src/mavlink/router.cpp:188-200 | The whole state after a position: signed latitude, longitude and altitudes are read back, and the heading unless it is 65535 |
| MavlinkFields.DecodesGps | core/src/mavlink/router.cpp:202-209 | The whole state after a raw GPS message: fix type and satellites |
| MavlinkFields.DecodesHud | core/src/mavlink/router.cpp:211-219 | The whole state after a VFR_HUD: the bits of the speeds and the climb, and the throttle |
| MavlinkFields.DecodesBattery | core/src/mavlink/router.cpp:221-234 | The whole state after a battery status laid out as the decoder expects it: first cell unless 65535, signed current, signed percentage |
| MavlinkFields.LeavesAlone | core/src/mavlink/router.cpp:144-238 | Every other kind, and every packet too short for its kind, leaves all fields alone |
| MavlinkFields.StartsUnknown | core/include/openipc/mavlink_router.h:58-88 | Before anything is heard all fields are zero and the percentage is -1 |
| MavlinkTelemetry.ReflectsMore | core/src/mavlink/router.cpp:144-238 | After any history each field holds what the latest message that writes it wrote, and the armed flag follows the base mode |
| MavlinkTelemetry.ReflectsOne | core/src/mavlink/router.cpp:144-238 | That law determines the whole state: there is one telemetry for a history of messages |
| MavlinkTelemetry.Downlink.FeedDownlink | core/src/mavlink/router.cpp:526-531 | After any calls the telemetry reflects exactly the messages in the bytes fed |
| MavlinkTelemetry.CutDoesNotMatter | core/src/mavlink/router.cpp:526-531 | Two downlinks fed the same bytes in different chunks hold equal telemetry |
| MavlinkTelemetry.Uplink.HandleEndpointData | core/src/mavlink/router.cpp:379-390 | What goes up is, in order, every whole frame of the bytes accepted so far and nothing else; without permission or a sink nothing is accepted |
| MavlinkTelemetry.SendsWholeFrames | core/src/mavlink/router.cpp:379-390 | The i-th thing sent up is the i-th whole frame, and the bytes counted are the accepted ones but for those dropped or held |
| MavlinkTelemetry.FaithfulExactly | core/src/mavlink/router.cpp:144-150 | A well-formed packet is interpreted from its own payload if and only if it is not a signed one whose payload falls short of its kind's need by at most the signature's length |
| MavlinkTelemetry.CutHarmlessExactly | core/src/mavlink/router.cpp:144-238 | A version 2 message whose trailing payload zeros were cut writes the same to all fields as the full one if and only if it is still long enough, counting a signature, and every byte of checksum and signature that is read as telemetry is zero |
| MavlinkTelemetry.MisreadsCutThrottle | core/src/mavlink/router.cpp:209-217 | A signed VFR_HUD with a zero throttle cut off reads its throttle from the checksum |
| MavlinkTelemetry.DropsCutThrottle | core/src/mavlink/router.cpp:209-217 | The same unsigned writes nothing at all |
| MavlinkTelemetry.MisreadsBattery | core/src/mavlink/router.cpp:219-233 | Of a BATTERY_STATUS serialised by field size, the voltage is read from the energy counter and the current from two cells; the percentage is right |
| MavlinkTelemetry.ReadsFullBatteryAsEmpty | core/src/mavlink/router.cpp:219-233 | A full battery with nothing drawn from it reads as zero volts |
| MspChecksums.Crc8DvbS2 | core/src/msp/displayport.cpp:14-20 | The CRC loop computes eight polynomial shifts of the mixed byte |
| MspWires.CrcIsRemainder | core/src/msp/displayport.cpp:14-20 | One byte under the CRC is division by x^8 + x^7 + x^6 + x^4 + x^2 + 1: quotient times polynomial and new sum give x^8 times the old sum and the byte |
| MspWires.XorIsParity | core/src/msp/displayport.cpp:86-105 | Each bit of the version 1 checksum says whether an odd number of bytes has it |
| MspChecksums.MixInjective | core/src/msp/displayport.cpp:14-20 | A checksum step of either version loses nothing: it is injective in the running sum and in the byte |
| MspChecksums.DetectsOneByte | core/src/msp/displayport.cpp:86-165 | Changing any single byte changes the checksum of either version, wherever it stands |
| MspIntegrity.ReadsFrame | core/src/msp/displayport.cpp:51-168 | From idle, a frame with any body and any checksum byte ends in idle with exactly one verdict, dispatch or error, according to its checksum |
| MspIntegrity.RoundTrip | core/src/msp/displayport.cpp:51-175 | Every encodable frame is dispatched exactly once with its function and payload |
| MspWires.RefusesOversize | core/src/msp/displayport.cpp:139-152 | A version 2 header that announces more than 1024 bytes leads back to idle and nothing happens |
| MspIntegrity.DetectsDamage | core/src/msp/displayport.cpp:86-166 | Any one byte changed among flags, function, payload and checksum gives exactly one checksum error and no dispatch |
| MspSoundness.FrameGrows | core/src/msp/displayport.cpp:51-168 | The invariant over all fourteen states: checksum, sizes and payload are those of the frame prefix that the input ends in |
| MspSoundness.EventsAreVerdicts | core/src/msp/displayport.cpp:107-165 | On any input, whatever is dispatched or counted as an error is the verdict on a complete well-formed frame that the input ends in |
| MspSoundness.PendingGrows | core/src/msp/displayport.cpp:51-168 | Every byte, in every state, continues what is pending, ends it, or completes a frame with its verdict |
| MspSoundness.EventsTileInput | core/src/msp/displayport.cpp:51-175 | Any input is frames that do not overlap, bytes between them and what is pending; what happened is one verdict for each of those frames, in order, and nothing else |
| MspSoundness.RankDecreases | core/src/msp/displayport.cpp:51-168 | Every byte, other than a repeated start, brings a parser outside idle closer to idle |
| MspSoundness.ResynchronisesWithin1031 | core/src/msp/displayport.cpp:51-168 | A reachable parser past the first header byte is idle again within 1031 bytes of anything |
| MspSoundness.QuietResynchronises | core/src/msp/displayport.cpp:51-168 | After 1032 bytes without a dollar sign any reachable parser is idle |
| MspStreams.ReadsTraffic | core/src/msp/displayport.cpp:51-175 | From idle, any mixture of frames, damaged frames and filler is read for exactly that: one dispatch or one error each, in order |
| MspStreams.ReadsAfterQuiet | core/src/msp/displayport.cpp:51-175 | The same behind any history and 1032 bytes without a dollar sign |
| MspSoundness.PayloadBounded | core/src/msp/displayport.cpp:99-155 | The payload buffer never holds more than 1024 bytes |
| MspCanvases.WritesCell | core/include/openipc/msp_osd.h:44-52 | Writing the flat index of a cell changes that cell of the two-dimensional canvas and no other |
| MspCanvases.WriteStringShows | core/src/msp/displayport.cpp:188-215 | Cell by cell: visible characters with their font page, clipped at the right edge and at NUL; everything else as before |
| MspCanvases.VisibleStops | core/src/msp/displayport.cpp:202-209 | The visible part has no NUL and ends at a NUL, at the edge or with the string |
| MspCanvases.ApplyKeeps | core/src/msp/displayport.cpp:177-250 | Every subcommand keeps the canvas a rectangle and every glyph in the font page of its attribute |
| MspDecoders.MspOsdDecoder.WriteCells | core/src/msp/displayport.cpp:201-214 | The loop over the flat vector lays the visible glyphs over one row of the canvas |
| MspDecoders.MspOsdDecoder.SetCanvas | core/src/msp/displayport.cpp:29-39 | Blank canvas of the new size, unless the size is not positive or already there |
| MspDecoders.MspOsdDecoder.HandleDisplayPort | core/src/msp/displayport.cpp:177-250 | On the vector what the subcommand does on the canvas, including the draw count and what is published, if a callback is installed |
| MspDecoders.MspOsdDecoder.HandleByte | core/src/msp/displayport.cpp:51-168 | Automaton, canvas and counters after one byte |
| MspDecoders.MspOsdDecoder.Push | core/src/msp/displayport.cpp:45-49 | The same over a buffer |
| MspDecoders.PushReactsToEvents | core/src/msp/displayport.cpp:45-175 | The decoder is the automaton followed by its events |
| MspDecoders.CanvasLaw | core/src/msp/displayport.cpp:29-250 | Over every interleaving of bytes and forced layouts the canvas is rectangular and every glyph agrees with its attribute |
| MspDecoders.FrameTakesEffect | core/src/msp/displayport.cpp:107-175 | A frame in either layout has exactly the effect of its payload, once |
| MspDisplays.WritesText | core/src/msp/displayport.cpp:188-215 | After a frame with subcommand 3, row, column, attribute and text: exactly the cells of that row from that column on hold the characters up to a NUL or the edge, in the attribute's font page; every other cell is as before |
| MspDisplays.Clears | core/src/msp/displayport.cpp:184-186 | Subcommand 2 leaves every cell blank and publishes nothing |
| MspDisplays.Releases | core/src/msp/displayport.cpp:238-243 | Subcommand 1 leaves every cell blank and publishes that |
| MspDisplays.Draws | core/src/msp/displayport.cpp:217-222 | Subcommand 4 publishes the grid as it is and counts one draw |
| MspDisplays.Resizes | core/src/msp/displayport.cpp:224-236 | Subcommand 5 gives 16 by 30 for variant zero and 20 by 53 for any other, blank unless the canvas has that size already |
| MspDisplays.IgnoresOthers | core/src/msp/displayport.cpp:177-250 | Every other subcommand, and one too short for its arguments, changes nothing |
| MspDisplays.CellAt | core/include/openipc/msp_osd.h:44-52 | Row r, column c of the canvas is cell r * cols + c of the vector |
| MspDecoders.DamageShowsNothing | core/src/msp/displayport.cpp:107-165 | A frame with one damaged byte raises the error count by one and leaves canvas and message count alone |
| AlinkFilters.UpdateBounds | core/src/alink/alink.cpp:38-48 | Gain strictly between 0 and 1, error strictly between 0 and the measurement variance after every update |
| AlinkLaws.UpdateWeighs | core/src/alink/alink.cpp:38-48 | New estimate and error, multiplied out: the old estimate is weighed by the measurement variance and the measurement by the predicted error |
| AlinkFilters.RunStaysInHull | core/src/alink/alink.cpp:38-48 | Over any run the estimate stays within the hull of its initial value and the measurements |
| AlinkFilters.Converges | core/src/alink/alink.cpp:38-48 | Under a constant measurement the distance falls at least by (R/(Q+R))^n |
| AlinkFilters.ConvergesHarmonically | core/src/alink/alink.cpp:38-48 | With Q = 0 the distance is exactly the initial one times R/(R + n e) |
| AlinkScores.ScoreLaw | core/src/alink/alink.cpp:85-122 | Score in 1000..2000, monotone in RSSI and SNR, antitone in noise, penalty never positive |
| AlinkLaws.RawScoreExactly | core/src/alink/alink.cpp:85-96 | The raw score by an equation in SNR, RSSI, spans and weights, each value taken as far as it lies within its span |
| AlinkLaws.RawScoreSaturates | core/src/alink/alink.cpp:85-96 | 2000 at or above both maxima, 1000 at or below both minima |
| AlinkLaws.PenaltyExactly | core/src/alink/alink.cpp:98-109 | What is taken off: nothing below the minimum noise, from there on the power of the noise's share of its span, at most everything above 1000 |
| AlinkLaws.PenaltyAtEnds | core/src/alink/alink.cpp:98-109 | No penalty at the minimum noise; from the maximum on the score is 1000 |
| AlinkLaws.ScoreIsWholePart | core/src/alink/alink.cpp:122-122 | The score sent is the whole part of raw score and penalty together |
| AlinkScores.FecBoundedExactly | core/src/alink/alink.cpp:109-118 | The FEC change stays in 0..5 for all noise if and only if the tuning's ramp fits |
| AlinkScores.OrderedTuningFits | core/src/alink/alink.cpp:109-118 | It fits when the last step comes no later than the maximum noise |
| AlinkScores.FecMonotoneExactly | core/src/alink/alink.cpp:109-118 | More noise never asks for less redundancy, for all noise, if and only if the ramp fits |
| AlinkLaws.FecExactly | core/src/alink/alink.cpp:109-119 | The change for any noise: none when disabled or up to the first threshold, five from the last on, in between five times the noise's share of the span to the nearest step, halves away from zero |
| AlinkControllers.MisfitReached | core/src/alink/alink.cpp:77-118 | From any filter state below the first threshold a single report leads a tuning whose ramp does not fit out of 0..5 |
| AlinkControllers.FecBoundedOnReportsExactly | core/src/alink/alink.cpp:77-118 | The FEC change stays in 0..5 on the filtered noise of every state and report if and only if the ramp fits |
| AlinkIdrs.TraceLaw | core/src/alink/alink.cpp:72-75 | Message i carries a code if and only if the latest loss j satisfies i - j < M, and it is the code drawn at j |
| AlinkIdrs.CodeEmptyExactly | core/src/alink/alink.cpp:132-138 | In every reachable state the code is empty exactly when nothing remains, unless M is zero and a loss was seen |
| AlinkIdrs.NothingWhenForbidden | core/src/alink/alink.cpp:72-75 | No message carries a code when keyframe requests are disabled |
| AlinkWires.NumericFits | core/src/alink/alink.cpp:124-130 | A 64-bit timestamp and nine ints take at most 128 characters, so the buffer never truncates |
| AlinkWires.MessageReadsBack | core/src/alink/alink.cpp:124-138 | Splitting at colons and parsing gives back the ten numbers, and the code as eleventh field |
| AlinkWires.UnframesFrames | core/src/alink/alink.cpp:149-159 | Any concatenation of frames decodes to exactly the messages framed |
| AlinkControllers.AlinkController.KalmanUpdate | core/src/alink/alink.cpp:38-48 | The in-place update is the filter's step |
| AlinkLaws.ErrorRatioExactly | core/src/alink/alink.cpp:51-83 | The error ratio multiplied out, with and without a known redundancy, and zero for idle intervals |
| AlinkControllers.AlinkController.Update | core/src/alink/alink.cpp:62-147 | Computed step by step as in the source: filter, keyframe request, score, penalty, FEC change and message of one report are those of the specifications, and the state stays the one that all reports so far lead to |
| AlinkControllers.LeadsOn | core/src/alink/alink.cpp:62-147 | Over any run of reports, idle intervals included, the filter is that of the measurements among them and the keyframe request that of the losses; the filter's divisor is never zero |
| AlinkControllers.ReportsStayInHull | core/src/alink/alink.cpp:76-83 | Over any run of reports the estimate stays within the hull of its start and the error ratios measured, and the error stays positive |
| AlinkControllers.MessagesReadBack | core/src/alink/alink.cpp:85-138 | Under a sane tuning every message reads back field by field, with score, penalty and FEC change in range |
| AlinkLaws.MessageSays | core/src/alink/alink.cpp:124-138 | Which of the ten fields of a message says what, with the whole part of score and penalty |
| WfbAddressing.BuildUplink | gslib/src/main/cpp/ground_station.cpp:201-213 | The copied-over template is the frame with the channel in both addresses |
| WfbAddressing.UplinkBytes | gslib/src/main/cpp/ground_station.cpp:194-213 | The uplink frame byte by byte |
| WfbAddressing.ClassifiesUplink | core/src/wfb/wfb_receiver.cpp:66-93 | With any check sequence behind it, an uplink frame is taken by exactly one link for its port, refused by all others, and its payload handed on exactly |
| WfbAddressing.HearsItselfExactly | core/src/wfb/wfb_receiver.cpp:84-92 | A station's own link accepts its frames if and only if the identity is below 2^24 |
| WfbAddressing.AcceptsExactly | core/src/wfb/wfb_receiver.cpp:66-93 | A frame is taken for a port if and only if it is long enough, starts like a data frame, and carries that link and port in both addresses |
| WfbSignals.MeanBetween | core/src/wfb/wfb_receiver.cpp:195-198 | The mean is the sum's share rounded toward zero, and lies between least and greatest sample |
| WfbSignals.NoOverflow | core/include/openipc/wfb_receiver.h:88-93 | Up to 2^24 frames an interval, no 32-bit count or sum overflows |
| WfbSignals.ActivePrefix | core/src/wfb/wfb_receiver.cpp:183-204 | The paths with samples are the first ones, so the running antenna number is the path's index |
| WfbSignals.WfbReceiver.AccumulateSignal | core/src/wfb/wfb_receiver.cpp:95-112 | The accumulators account for exactly the interval's samples, one frame longer |
| WfbSignals.WfbReceiver.ProcessFrame | core/src/wfb/wfb_receiver.cpp:120-167 | A frame of a subscribed port is handed on without header and check sequence, with its antenna, signal and noise slots; only the primary port's frames are sampled |
| WfbSignals.NoiseFloorExactly | core/src/wfb/wfb_receiver.cpp:140-160 | The difference of the signal and noise handed on is the driver's SNR if and only if that noise floor fits in a signed byte |
| WfbSignals.WfbReceiver.TakeSnapshot | core/src/wfb/wfb_receiver.cpp:183-210 | The snapshot reports exactly the samples since the last one: count, extremes, truncated mean and best values per path; then the interval starts anew |

## Left out

- RtpDepacketizers.RtpDepacketizer.Push: counters are unbounded, not 64 bits wide, and emitted units are values, not pointers into a reused buffer.
- WfbSignals.WfbReceiver.ProcessFrame: the number of antenna slots is wfb-ng's own constant, taken to be four; what happens to the payload inside wfb-ng's aggregator (decryption, error correction, packet counters) is not part of this model.
- AlinkControllers.AlinkController.Update: doubles are reals without rounding; infinities and NaN, which a zero divisor would give, are excluded by its preconditions.
- AlinkScores.ScoreLaw: the power function is any non-negative monotone function.
- The random choice of a keyframe code is an argument.
- MavlinkTelemetry.TelemetryDecoder.Consume: floats are their 32 raw bits and scaled values (volts, amperes, degrees) the integers on the wire; the time of the last update is dropped.
- Sockets, threads, endpoint rebuilding and the forwarding of downlink bytes in the MAVLink router: operating-system input and output.
- Clocks and timestamps of snapshots, key files and link statistics holders.
- The JNI bridge, USB, decoder and user interface code.
