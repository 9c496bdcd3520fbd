# Daikin ARC infrared climate codec, modelled in Dafny

This project models the codec of ESPHome's Daikin climate component: the
firmware that turns a climate entity's state (mode, target temperature, fan
speed, swing, preset) into the infrared message a Daikin ARC470A1 or
ARC432A14 remote would send, and that reads such messages back from an IR
receiver into the entity's state.

The model follows the firmware's structure:

- `Bytes`, `Optional`: byte-level helpers (nibbles, single bits, as integer
  arithmetic on values below 256) and an option type.
- `DaikinConstants`: the wire constants of `daikin.h`, with lemmas for the
  facts the codec relies on (frame sizes fit the buffer, type bytes are
  distinct, flag bytes sit inside their frames, mode and fan codes have
  separable nibbles).
- `Climate`: the entity state as the codec sees it, including whether the
  boost auto-clear is pending and how many times the state was published.
- `FieldCodec`: `operation_mode_`, `temperature_`, `fan_speed_`, and the
  matching decoders inside `parse_state_frame_`.
- `Checksum`: the additive mod-256 frame checksum, with a loop that mirrors
  the firmware's accumulation.
- `Assembler`: the first half of `transmit_state`, in the firmware's order:
  write the fields, set the preset flags, write the model bytes, seal the
  first frame, mark horizontal swing, seal the state frame.
- `PulseCodec`: the pulse serializer (least significant bit first) and the
  bit reader of `on_receive`. Pulses are (mark, space) pairs matched exactly.
- `Receiver`: `on_receive`, `frame_size_`, `parse_frame_type_` and the
  frame extractors. The byte loop is proved equal to an independent
  verdict on the bytes that follow the leader.
- `Presets`: `allow_preset`, the preset guard of `control`, and the body
  of the boost auto-clear callback.
- `Transmission`: transmitter and receiver together. It shows what the
  firmware's own receiver makes of what its transmitter sends, including
  where the pair is deliberately not a round trip.

Where the codec is not a round trip, the model keeps the firmware's
behaviour and proves the discrepancy:

- Eco is sent as byte 32 = 0x04, but the receiver recognises only 0x84.
- Fan-only mode sends the sentinel 0x32, which the receiver reads as 25 degrees.
- A 32-degree target is sent as 0x40, which the receiver ignores.
- Focus fan speed is sent in the low byte, where the receiver does not look.
- Under ARC432A14, bytes 3 and 4 of the first frame are overwritten with
  0xF0 and 0x00, so the firmware's own receiver refuses that frame.
- Comfort narrows the stored swing only after the fan word has been
  computed. With both swings, the state frame still carries both.
- `frame_size_` returns -1 through an unsigned byte, so an unknown frame
  type is not refused at once. The loop reads all 19 bytes, then gives up.

## Model

| member | source | states |
|---|---|---|
| `FieldCodec.EncodeMode` | esphome/components/daikin/daikin.cpp:138-163 | Off encodes to 0x00 and only Off does; every other mode carries the ON bit; decoding the byte gives the mode back for all six modes |
| `FieldCodec.DecodeMode` | esphome/components/daikin/daikin.cpp:240-261 | a byte without the ON bit is Off; a byte with the ON bit is unrecognised exactly when its high nibble is none of the five mode codes |
| `FieldCodec.DecodeModeThenEncode` | esphome/components/daikin/daikin.cpp:240-261 | a recognised non-Off mode byte re-encodes to its high nibble with the ON bit set |
| `FieldCodec.TemperatureMin` | esphome/components/daikin/daikin.cpp:432-434 | the lower bound is the selected model's minimum, below its maximum |
| `FieldCodec.TemperatureMax` | esphome/components/daikin/daikin.cpp:435-437 | the upper bound is the selected model's maximum; twice it still fits the temperature field |
| `FieldCodec.Clamp` | esphome/components/daikin/daikin.cpp:211 | the clamped value lies in the range, equals the input inside it and the nearer bound outside it |
| `FieldCodec.SentTarget` | esphome/components/daikin/daikin.cpp:211 | the target sent always lies in the model's temperature range |
| `FieldCodec.EncodeTemperature` | esphome/components/daikin/daikin.cpp:202-214 | fan-only sends 0x32; auto and dry send 0xC0, which carries no temperature; the other modes send an even byte whose decoding is the clamped target when that is below 32 degrees, and a 32-degree target is sent as 0x40 |
| `FieldCodec.DecodeTemperature` | esphome/components/daikin/daikin.cpp:262-265 | a temperature is read exactly when both top bits are clear, and it is the byte halved |
| `FieldCodec.TemperatureSentinelsOnReceipt` | esphome/components/daikin/daikin.cpp:262-265 | 0x32 reads as 25 degrees; 0xC0 reads as nothing; 32 degrees under ARC432A14 is sent as 0x40 and reads as nothing |
| `FieldCodec.EncodeFanSwing` | esphome/components/daikin/daikin.cpp:165-200 | the fan word is the speed code shifted into the high byte (Focus: the silent code in the low byte), with 0x0F00, 0x000F or 0x0F0F or'ed in for vertical, horizontal and both swings, and nothing for no swing |
| `FieldCodec.FanSwingNibbles` | esphome/components/daikin/daikin.cpp:165-200 | the fan word's high byte carries the speed code and a non-zero low nibble exactly for vertical swing; its low byte carries the Focus code and a non-zero low nibble exactly for horizontal swing |
| `FieldCodec.SpeedWordValues` | esphome/components/daikin/daikin.cpp:165-183 | Low, Medium, High and Auto put 0x30, 0x50, 0x70 and 0xA0 in the word's high byte; Focus puts 0xB0 in its low byte |
| `FieldCodec.SwingWordBits` | esphome/components/daikin/daikin.cpp:185-198 | vertical swing adds 0x0F00 to the word, horizontal 0x000F, both 0x0F0F |
| `FieldCodec.DecodeSwing` | esphome/components/daikin/daikin.cpp:266-275 | vertical swing is read exactly when the fan byte's low nibble is non-zero, and horizontal exactly when the swing byte's is |
| `FieldCodec.SwingRoundTrip` | esphome/components/daikin/daikin.cpp:266-275 | all four swing modes survive encoding and decoding, whatever the fan speed |
| `FieldCodec.DecodeFan` | esphome/components/daikin/daikin.cpp:276-292 | a fan byte is read by its high nibble: speeds 1, 2 and Silent as Low, 3 as Medium, 4 and 5 as High, the auto code as Auto; any other nibble is unrecognised, and Focus is never the result |
| `FieldCodec.FanRoundTrip` | esphome/components/daikin/daikin.cpp:276-292 | Auto, Low, Medium and High survive encoding and decoding; Focus is not recognised on receipt |
| `FieldCodec.DecodeFanCollapses` | esphome/components/daikin/daikin.cpp:276-292 | speeds 1, 2 and Silent all read as Low; speeds 4 and 5 both read as High |
| `FieldCodec.DecodeFanIgnoresSwingNibble` | esphome/components/daikin/daikin.cpp:276-292 | the swing nibble of the fan byte has no effect on the speed read: 0x4F reads as Low, 0x6F as High, and 0xBF (silent with vertical swing) as Low |
| `Climate.ComfortSwing` | esphome/components/daikin/daikin.cpp:51-55 | the Comfort narrowing removes vertical swing and keeps horizontal swing as it was |
| `Climate.ComfortSwingIdempotent` | esphome/components/daikin/daikin.cpp:222-226 | narrowing an already narrowed swing changes nothing, so the narrowing persists |
| `Climate.Publish` | esphome/components/daikin/daikin.cpp:399 | publishing moves the publish count by one and nothing else |
| `Checksum.Sum` | esphome/components/daikin/daikin.cpp:378-381 | the byte-wise wrapping sum equals the integer total of the bytes reduced mod 256 |
| `Checksum.TotalAppend` | esphome/components/daikin/daikin.cpp:77-79 | the total of two concatenated ranges is the sum of their totals, so the loop may add one byte at a time |
| `Checksum.TotalUpdate` | esphome/components/daikin/daikin.cpp:378-381 | changing one byte changes the total by the difference |
| `Checksum.SingleByteErrorDetected` | esphome/components/daikin/daikin.cpp:378-383 | a frame that passes the checksum test fails it once any single byte is changed |
| `Checksum.Accumulate` | esphome/components/daikin/daikin.cpp:76-88 | the accumulation loop leaves its start value plus the total of the range, mod 256, which is the checksum when it starts from 0 |
| `Assembler.WriteFields` | esphome/components/daikin/daikin.cpp:42-47 | byte 21 is the encoded mode, which decodes back to the mode; bytes 22, 24 and 25 carry the encoded temperature and fan word; no other byte leaves the template |
| `Assembler.WritePresetFlags` | esphome/components/daikin/daikin.cpp:48-64 | Comfort sets byte 6 to 0x10; Boost sets byte 29 to 0x01 and suppresses Eco; Eco sets bit 2 of byte 32; nothing else changes |
| `Assembler.WriteModelBytes` | esphome/components/daikin/daikin.cpp:66-74 | ARC432A14 sets bytes 3 and 4 to 0xF0 and 0x00; ARC470A1 sets bytes 27 and 28 to 0x06 and 0x60; nothing else changes |
| `Assembler.SealFirstFrame` | esphome/components/daikin/daikin.cpp:76-79 | the first frame passes the checksum test afterwards, and only byte 7 changes |
| `Assembler.MarkHorizontal` | esphome/components/daikin/daikin.cpp:81-83 | byte 25's high nibble is set exactly when the stored swing is horizontal only; nothing else changes |
| `Assembler.SealStateFrame` | esphome/components/daikin/daikin.cpp:85-88 | the state frame passes the checksum test afterwards, and only byte 34 changes |
| `Assembler.StateAfterTransmit` | esphome/components/daikin/daikin.cpp:48-61 | transmitting with Comfort narrows the stored swing; with Boost it arms the auto-clear; nothing else in the state moves |
| `Assembler.TimeFrameChecksumHolds` | esphome/components/daikin/daikin.cpp:19-22 | the time frame's fixed checksum 0xA2 is the sum of its other bytes |
| `Assembler.TransmitKeepsTemplate` | esphome/components/daikin/daikin.cpp:11-40 | transmission changes only the bytes the firmware writes; the rest are the template's |
| `Assembler.TransmitChecksums` | esphome/components/daikin/daikin.cpp:76-88 | all three transmitted frames pass the checksum test, for either model |
| `Assembler.TransmitHeaders` | esphome/components/daikin/daikin.cpp:11-40 | each frame starts with 11 DA 27 and its type byte; the first frame's bytes 3 and 4 are F0 00 under ARC432A14 |
| `Assembler.Transmit` | esphome/components/daikin/daikin.cpp:42-88 | after transmitting, only the swing and the boost auto-clear of the state can have moved: Comfort narrows the swing, Boost arms the auto-clear; the sent state frame passes the checksum test |
| `Assembler.TransmitFieldBytes` | esphome/components/daikin/daikin.cpp:42-47 | the sent mode byte is the mode's encoding and decodes back to the mode; the temperature and fan bytes are the encoder's; byte 25 carries the horizontal marker exactly when the narrowed swing is horizontal |
| `Assembler.TransmitPresetBytes` | esphome/components/daikin/daikin.cpp:48-64 | byte 6 is 0x10 exactly for Comfort, byte 29 is 0x01 exactly for Boost, byte 32 is 0x04 exactly for Eco |
| `PulseCodec.BitPulsesAt` | esphome/components/daikin/daikin.cpp:96-101 | the k-th pulse of a byte is a one-pair exactly when bit k is set |
| `PulseCodec.BytePulses` | esphome/components/daikin/daikin.cpp:96-101 | a byte becomes eight (mark, space) pairs, least significant bit first |
| `PulseCodec.Serialize` | esphome/components/daikin/daikin.cpp:94-131 | the stream starts with the leader and ends with the (520, 0) pair; it has 286 pairs, or 220 when ARC432A14 drops the time frame |
| `PulseCodec.ReadBitsRoundTrip` | esphome/components/daikin/daikin.cpp:325-331 | reading back the pairs of a value gives that value and leaves the rest of the stream |
| `PulseCodec.ReadByte` | esphome/components/daikin/daikin.cpp:324-332 | a byte is read exactly when eight bit pairs follow, and the read consumes exactly those eight pairs |
| `PulseCodec.ReadBitsSound` | esphome/components/daikin/daikin.cpp:325-331 | whatever the bit loop reads, the pairs it consumed are exactly the serialization of the value it returns |
| `PulseCodec.ReadByteSound` | esphome/components/daikin/daikin.cpp:324-332 | a successful byte read splits the stream into that byte's eight pairs and the rest |
| `PulseCodec.ReadByteRoundTrip` | esphome/components/daikin/daikin.cpp:324-332 | the bit loop of the receiver inverts the per-byte serialization |
| `PulseCodec.NonBitStops` | esphome/components/daikin/daikin.cpp:328-330 | a pair that is neither bit pair stops the byte read |
| `PulseCodec.ReadBytes` | esphome/components/daikin/daikin.cpp:323-332 | at most the requested number of bytes are read |
| `PulseCodec.ReadBytesRoundTrip` | esphome/components/daikin/daikin.cpp:323-332 | reading the serialized bytes gives them back, then goes on into what follows |
| `PulseCodec.ReadBurst` | esphome/components/daikin/daikin.cpp:103-106 | after a frame's burst the gap pair ends the byte read, so exactly that frame's bytes are read |
| `Receiver.FrameSize` | esphome/components/daikin/daikin.cpp:363-375 | the first and time frame types get 8, the state frame type gets 19 and is the only one to, and an unknown type gets 0xFF, beyond the buffer |
| `Transmission.TransmittedFramesSized` | esphome/components/daikin/daikin.cpp:363-375 | the size the receiver looks up for each type byte the transmitter writes is that frame's length in the 35-byte message, except ARC432A14's first frame, whose type byte 0x00 is the state frame's (19, not 8) |
| `Receiver.ParseFirstFrame` | esphome/components/daikin/daikin.cpp:216-228 | comfort byte 0x10 selects Comfort and narrows the swing; otherwise nothing changes; nothing but preset and swing ever changes |
| `Receiver.ParseStateFrame` | esphome/components/daikin/daikin.cpp:237-304 | each field is set from its byte when the byte is recognised and kept otherwise; Boost takes precedence over Eco and arms the auto-clear; Eco needs 0x84 |
| `Receiver.ParseFrameType` | esphome/components/daikin/daikin.cpp:376-401 | a frame is accepted exactly when its checksum is right and its type is known; it then goes to its type's extractor and the state is published once; a refusal changes nothing |
| `Receiver.ReceiveFrom` | esphome/components/daikin/daikin.cpp:323-358 | the byte loop either refuses with the state unchanged, or accepts with exactly one publish |
| `Receiver.Receive` | esphome/components/daikin/daikin.cpp:314-321 | every refusal leaves the state unchanged; an acceptance publishes exactly once |
| `Receiver.Verdict` | esphome/components/daikin/daikin.cpp:314-401 | the bytes are accepted exactly when the header matches, the type is known, enough bytes arrived and the checksum is right |
| `Receiver.VerdictBadHeader` | esphome/components/daikin/daikin.cpp:333-348 | a mismatch in any of the four header bytes refuses the frame |
| `Receiver.ReceiveIsVerdict` | esphome/components/daikin/daikin.cpp:314-361 | the receive loop decides exactly as the verdict on the up to 19 bytes read after the leader, and refuses when there is no leader |
| `Presets.AllowPreset` | esphome/components/daikin/daikin.cpp:412-430 | Comfort is never allowed, and Eco is not allowed in fan-only mode |
| `Presets.AllowPresetExactly` | esphome/components/daikin/daikin.cpp:412-430 | the allowed presets are exactly None, Eco outside fan-only mode, and Boost when it is configured |
| `Presets.ControlPreset` | esphome/components/daikin/daikin.cpp:403-407 | only the preset can change; it changes only to the requested one, and only when that is allowed |
| `Presets.ControlPresetAllowed` | esphome/components/daikin/daikin.cpp:404-406 | the stored preset is the request exactly when the request is present and allowed |
| `Presets.ControlPresetIdempotent` | esphome/components/daikin/daikin.cpp:403-407 | applying the same request twice has the effect of applying it once |
| `Presets.BoostTimeoutFires` | esphome/components/daikin/daikin.cpp:306-312 | when the auto-clear fires, Boost becomes None, other presets stay, and the state is published whatever the preset |
| `Transmission.StreamReadsTimeFrame` | esphome/components/daikin/daikin.cpp:94-131 | the serialized pairs, read from the time frame's leader (pair 66) on under ARC470A1, are decided on exactly the time frame's bytes |
| `Transmission.StreamReadsStateFrame` | esphome/components/daikin/daikin.cpp:94-131 | the serialized pairs, read from the state frame's leader (pair 132, or 66 under ARC432A14) on, are decided on exactly the state frame's bytes |
| `Transmission.Arc470a1StreamAccepted` | esphome/components/daikin/daikin.cpp:94-131 | under ARC470A1 the sent pairs are accepted as the first frame, from pair 66 on as the time frame (nothing changes but the publish count), and from pair 132 on as the state frame |
| `Transmission.Arc432a14StreamReadBack` | esphome/components/daikin/daikin.cpp:66-70 | under ARC432A14 the sent pairs are refused as a whole, and from pair 66 on are accepted as the state frame |
| `Transmission.ReceiveBurst` | esphome/components/daikin/daikin.cpp:314-361 | a burst is decided on exactly its own bytes, whatever follows it |
| `Transmission.GoodFrameBurst` | esphome/components/daikin/daikin.cpp:376-401 | a burst with a good header, known type and right checksum is accepted and handed to its type's extractor |
| `Transmission.Arc470a1BurstsAccepted` | esphome/components/daikin/daikin.cpp:10-136 | under ARC470A1 all three sent frames are accepted by the firmware's own receiver |
| `Transmission.Arc432a14FirstBurstRefused` | esphome/components/daikin/daikin.cpp:66-70 | under ARC432A14 the first frame is refused by the firmware's own receiver, while the state frame is accepted |
| `Transmission.WholeTransmissionReadsFirstFrame` | esphome/components/daikin/daikin.cpp:103-106 | a whole transmission, received in one capture, is decided on its first frame alone |
| `Transmission.TargetReadBack` | esphome/components/daikin/daikin.cpp:262-265 | the temperature byte the transmitter writes reads back as the clamped target below 32 degrees, as 25 in fan-only mode, and otherwise leaves the receiver's target |
| `Transmission.SwingReadBack` | esphome/components/daikin/daikin.cpp:266-275 | swing nibbles that mark the directions of a swing mode read back as that mode |
| `Transmission.FanReadBack` | esphome/components/daikin/daikin.cpp:276-292 | a fan byte carrying a speed code reads back as that speed, except Focus, which leaves the receiver's fan |
| `Transmission.FieldsReadBack` | esphome/components/daikin/daikin.cpp:240-292 | a state frame with the transmitter's field bytes reads back to the sender's mode and swing, its fan unless Focus, and the target as sent |
| `Transmission.StateFrameRoundTrip` | esphome/components/daikin/daikin.cpp:42-47 | the sent state frame reads back to the sender's mode and requested swing, its fan unless Focus, and the received target |
| `Transmission.StateFramePresets` | esphome/components/daikin/daikin.cpp:58-64 | Boost is read back and arms the auto-clear; Eco is not read back, so the receiver's preset stays |
| `Transmission.FirstFrameRoundTrip` | esphome/components/daikin/daikin.cpp:48-56 | the first-frame extractor, applied to the sent first frame, selects Comfort and narrows the swing exactly when the sender was in Comfort; under ARC432A14 the receiver refuses that frame before extracting (see `Transmission.Arc432a14StreamReadBack`) |
| `Transmission.ComfortBothSwingDisagrees` | esphome/components/daikin/daikin.cpp:45-56 | with Comfort and both swings, the sender stores horizontal swing but its state frame still reads back as both |
| `Transmission.BoostReadBackThenExpires` | esphome/components/daikin/daikin.cpp:298-310 | Boost read back is selected with its auto-clear armed, and the auto-clear then returns the preset to None |
| `DaikinConstants.FrameSizesFitBuffer` | esphome/components/daikin/daikin.h:50-57 | first and time frames are 8 bytes, the state frame is 19, the buffer holds any of them, and the three tile the 35-byte message |
| `DaikinConstants.FrameTypesDistinct` | esphome/components/daikin/daikin.h:59-62 | the three frame-type bytes are pairwise distinct |
| `DaikinConstants.OffsetsInsideFrames` | esphome/components/daikin/daikin.h:64-77 | the comfort, header and type offsets lie in the first frame before its checksum; swing, boost and eco offsets lie in the state frame before its checksum |
| `DaikinConstants.ModeCodesSeparable` | esphome/components/daikin/daikin.h:22-29 | the mode codes have zero low nibbles, so adding the ON bit is injective and masking recovers the code |
| `DaikinConstants.FanCodesSeparable` | esphome/components/daikin/daikin.h:31-38 | the fan codes have zero low nibbles and distinct high nibbles |
| `DaikinConstants.ModelRangesFit` | esphome/components/daikin/daikin.h:16-20 | both temperature ranges are non-empty and twice their maximum fits the field |
| `DaikinConstants.BitSpacesDistinct` | esphome/components/daikin/daikin.h:40-47 | the one-space and zero-space differ, so a bit pair is read unambiguously |

## Left out

- IR transport is not modelled: the transmitter, the carrier frequency,
  `perform()`, and the timing tolerance of `expect_item`. Pulses are exact
  (mark, space) pairs, and a pair is consumed only when it matches exactly.
- Logging (`ESP_LOGD`, `hexencode`) has no effect on state and is left out.
- The scheduler is not modelled. Arming the ten-minute boost auto-clear is
  a flag in the state. `Presets.BoostTimeoutFires` models the callback's body.
- `traits()` only declares capabilities to the user interface.
  `climate.py` is configuration glue. Neither is part of this model. The
  boost trait enters as the `boostEnabled` parameter of `Presets.AllowPreset`.
- `ClimateIR::control`, the base-class call at the end of `control`, is
  not part of this model. `Presets.ControlPreset` covers only the preset guard.
- The target temperature is a whole-degree integer, not a float. `roundf`
  of a clamped whole number is that number; the entity's temperature step is 1.0.
- `Climate.ClimateState`: the fan mode is always present. The firmware
  reads `fan_mode.value()` without checking, so an absent fan mode is
  outside what it handles.
- The constructor calls `temperature_min_()` before the model is set;
  every operation here takes the remote model as a parameter instead.
- `DAIKIN_MESSAGE_SHORT_SPACE`, `DAIKIN_IR_FREQUENCY`, the timer byte
  offsets and `DAIKIN_BOOST_TIMEOUT`'s duration play no part in the
  codec's logic and are not declared in the model.
- `Climate.Mode`, `Climate.FanMode`, `Climate.SwingMode` and
  `Climate.Preset` hold only the values `traits()` declares, so the
  `default:` branches of `operation_mode_` (daikin.cpp lines 156-158),
  `fan_speed_` (lines 180-182) and `allow_preset` (lines 426-428) are
  unreachable here; the branches they share with a named value are modelled.
- The time frame's clock bytes are the fixed template values 0x49 and
  0x05, as the firmware sends them. `parse_time_frame_` only logs, so the
  time frame changes nothing but the publish count.
