/** The first half of `transmit_state`: the 35-byte message of three
    frames, built from a fixed template, then the fields, the preset flags
    and the model bytes, then the first frame's checksum, the late
    horizontal-swing mark and the state frame's checksum, in that order. */
module Assembler {
  import opened Optional
  import opened Bytes
  import opened Climate
  import opened DaikinConstants
  import opened FieldCodec
  import opened Checksum

  type Message = m: seq<Byte> | |m| == MessageSize witness Template

  /** The message before any field is written: the three frame headers,
      the time frame with its fixed clock bytes and fixed checksum, and
      0xC0 at byte 31. */
  const Template: seq<Byte> := FirstFrameTemplate + TimeFrameTemplate + StateFrameTemplate

  const FirstFrameTemplate: seq<Byte> := [0x11, 0xDA, 0x27, 0x00, 0xC5, 0x00, 0x00, 0x00]

  /** The time frame never changes: 0x49 and 0x05 are a fixed clock
      reading and 0xA2 a fixed checksum. */
  const TimeFrameTemplate: seq<Byte> := [0x11, 0xDA, 0x27, 0x00, 0x42, 0x49, 0x05, 0xA2]

  const StateFrameTemplate: seq<Byte> := [
    0x11, 0xDA, 0x27, 0x00, 0x00, 0x00, 0x00, 0x00, 0x00, 0x00,
    0x00, 0x00, 0x00, 0x00, 0x00, 0xC0, 0x00, 0x00, 0x00]

  /** Two messages agree everywhere except possibly at the positions in `except`. */
  predicate AgreeExcept(a: Message, b: Message, except: set<nat>) {
    forall i :: 0 <= i < MessageSize && i !in except ==> a[i] == b[i]
  }

  /** Step 1: the mode, temperature and fan/swing bytes. */
  function WriteFields(s: ClimateState, model: Model): (m: Message)
    ensures m[21] == EncodeMode(s.mode) && DecodeMode(m[21]) == Some(s.mode)
    ensures m[22] == EncodeTemperature(s.mode, s.target, model)
    ensures m[SwingVerticalId] == EncodeFanSwing(s.fan, s.swing).high
    ensures m[SwingHorizontalId] == EncodeFanSwing(s.fan, s.swing).low
    ensures AgreeExcept(m, Template, {21, 22, SwingVerticalId, SwingHorizontalId})
  {
    var w := EncodeFanSwing(s.fan, s.swing);
    Template[21 := EncodeMode(s.mode)][22 := EncodeTemperature(s.mode, s.target, model)]
            [SwingVerticalId := w.high][SwingHorizontalId := w.low]
  }

  /** Step 2: Comfort sets byte 6 to 0x10; Boost sets byte 29 to 0x01,
      and otherwise Eco sets bit 2 of byte 32. */
  function WritePresetFlags(m: Message, preset: Option<Preset>): (r: Message)
    ensures r[ComfortId] == (if preset == Some(PresetComfort) then 0x10 else m[ComfortId])
    ensures r[BoostId] == (if preset == Some(PresetBoost) then 0x01 else m[BoostId])
    ensures r[EcoId] == (if preset == Some(PresetEco) then OrBit2(m[EcoId]) else m[EcoId])
    ensures AgreeExcept(r, m, {ComfortId, BoostId, EcoId})
  {
    var comfort := if preset == Some(PresetComfort) then m[ComfortId := 0x10] else m;
    if preset == Some(PresetBoost) then comfort[BoostId := 0x01]
    else if preset == Some(PresetEco) then comfort[EcoId := OrBit2(comfort[EcoId])]
    else comfort
  }

  /** Step 3: ARC432A14 overwrites bytes 3 and 4 of the first frame with
      0xF0 and 0x00; the other model sets bytes 27 and 28 to 0x06 and 0x60. */
  function WriteModelBytes(m: Message, model: Model): (r: Message)
    ensures model == ARC432A14 ==> r[HeaderId] == 0xF0 && r[MessageId] == 0x00 && AgreeExcept(r, m, {HeaderId, MessageId})
    ensures model != ARC432A14 ==> r[27] == 0x06 && r[28] == 0x60 && AgreeExcept(r, m, {27, 28})
  {
    if model == ARC432A14 then m[HeaderId := 0xF0][MessageId := 0x00]
    else m[27 := 0x06][28 := 0x60]
  }

  /** Step 4: byte 7 gets the checksum of bytes 0 to 6 (the template holds
      0 there, the accumulator's starting value). */
  function SealFirstFrame(m: Message): (r: Message)
    ensures ChecksumOk(r[..FirstFrameSize])
    ensures r[..FirstFrameSize - 1] == m[..FirstFrameSize - 1]
    ensures AgreeExcept(r, m, {FirstFrameSize - 1})
  {
    var r := m[FirstFrameSize - 1 := Sum(m[..FirstFrameSize - 1])];
    assert r[..FirstFrameSize][..FirstFrameSize - 1] == m[..FirstFrameSize - 1];
    r
  }

  /** Step 5, after the first checksum and before the state frame's: the
      high nibble of byte 25 is set when the (possibly narrowed) swing is
      horizontal only. */
  function MarkHorizontal(m: Message, swing: SwingMode): (r: Message)
    ensures r[SwingHorizontalId] == (if swing == SwingHorizontal then OrHighNibble(m[SwingHorizontalId]) else m[SwingHorizontalId])
    ensures AgreeExcept(r, m, {SwingHorizontalId})
  {
    if swing == SwingHorizontal then m[SwingHorizontalId := OrHighNibble(m[SwingHorizontalId])] else m
  }

  /** Step 6: byte 34 gets the checksum of bytes 16 to 33. */
  function SealStateFrame(m: Message): (r: Message)
    ensures ChecksumOk(r[StateFrameOffset..])
    ensures r[StateFrameOffset..MessageSize - 1] == m[StateFrameOffset..MessageSize - 1]
    ensures AgreeExcept(r, m, {MessageSize - 1})
  {
    var r := m[MessageSize - 1 := Sum(m[StateFrameOffset..MessageSize - 1])];
    assert r[StateFrameOffset..][..StateFrameSize - 1] == m[StateFrameOffset..MessageSize - 1];
    r
  }

  /** What one transmission produces: the message and the entity state
      afterwards. */
  datatype Transmission = Transmission(msg: Message, state: ClimateState)

  /** The entity state after transmitting: Comfort narrows the stored
      swing and Boost arms the ten-minute auto-clear; nothing else moves. */
  function StateAfterTransmit(s: ClimateState): (r: ClimateState)
    ensures s.preset == Some(PresetComfort) ==> !HasVertical(r.swing) && HasHorizontal(r.swing) == HasHorizontal(s.swing)
    ensures s.preset != Some(PresetComfort) ==> r.swing == s.swing
    ensures r.boostTimerArmed <==> s.boostTimerArmed || s.preset == Some(PresetBoost)
    ensures r.(swing := s.swing, boostTimerArmed := s.boostTimerArmed) == s
  {
    var narrowed := if s.preset == Some(PresetComfort) then s.(swing := ComfortSwing(s.swing)) else s;
    if s.preset == Some(PresetBoost) then narrowed.(boostTimerArmed := true) else narrowed
  }

  /** `transmit_state` up to the pulses, its steps in the firmware's order. */
  function Transmit(s: ClimateState, model: Model): (r: Transmission)
    ensures r.state.(swing := s.swing, boostTimerArmed := s.boostTimerArmed) == s
    ensures r.state.swing == if s.preset == Some(PresetComfort) then ComfortSwing(s.swing) else s.swing
    ensures r.state.boostTimerArmed <==> s.boostTimerArmed || s.preset == Some(PresetBoost)
    ensures ChecksumOk(r.msg[StateFrameOffset..])
  {
    var s' := StateAfterTransmit(s);
    var m := WriteModelBytes(WritePresetFlags(WriteFields(s, model), s.preset), model);
    var msg := SealStateFrame(MarkHorizontal(SealFirstFrame(m), s'.swing));
    Transmission(msg, s')
  }

  /* ---------- Properties of the assembled message ---------- */

  /** The time frame of the template: its fixed checksum 0xA2 is the
      checksum of its other bytes, so it passes the receiver's check. */
  lemma TimeFrameChecksumHolds()
    ensures Template[TimeFrameOffset..StateFrameOffset] == TimeFrameTemplate
    ensures ChecksumOk(TimeFrameTemplate)
  {
    assert TimeFrameTemplate[..7] == [0x11, 0xDA, 0x27, 0x00, 0x42, 0x49, 0x05];
    TimeFrameSum();
    assert |FirstFrameTemplate| == TimeFrameOffset && |TimeFrameTemplate| == TimeFrameSize;
    assert Template[TimeFrameOffset..StateFrameOffset] == TimeFrameTemplate;
  }

  lemma TimeFrameSum()
    ensures Sum([0x11, 0xDA, 0x27, 0x00, 0x42, 0x49, 0x05]) == 0xA2
  {
    var s: seq<Byte> := [0x11, 0xDA, 0x27, 0x00, 0x42, 0x49, 0x05];
    assert Total(s[7..]) == 0;
    assert Total(s[6..]) == 5;
    assert Total(s[5..]) == 78;
    assert Total(s[4..]) == 144;
    assert Total(s[3..]) == 144;
    assert Total(s[2..]) == 183;
    assert Total(s[1..]) == 401;
    assert Total(s[0..]) == 418;
    assert s[0..] == s;
  }

  /** The positions `transmit_state` may write for a model. */
  function Written(model: Model): (w: set<nat>)
    ensures TimeFrameOffset !in w && 12 !in w && 15 !in w
  {
    {ComfortId, FirstFrameSize - 1, 21, 22, SwingVerticalId, SwingHorizontalId, BoostId, EcoId, MessageSize - 1}
    + (if model == ARC432A14 then {HeaderId, MessageId} else {27, 28})
  }

  /** Every byte outside the written positions, the whole time frame
      included, is the template's. */
  lemma TransmitKeepsTemplate(s: ClimateState, model: Model)
    ensures AgreeExcept(Transmit(s, model).msg, Template, Written(model))
    ensures Transmit(s, model).msg[TimeFrameOffset..StateFrameOffset] == TimeFrameTemplate
  {
    var s' := StateAfterTransmit(s);
    var m1 := WriteFields(s, model);
    var m2 := WritePresetFlags(m1, s.preset);
    var m3 := WriteModelBytes(m2, model);
    var m4 := SealFirstFrame(m3);
    var m5 := MarkHorizontal(m4, s'.swing);
    var m6 := SealStateFrame(m5);
    StagesKeepTemplate(m1, m2, m3, m4, m5, m6, model);
    TimeFrameChecksumHolds();
  }

  /** The stages together write only the written positions. */
  lemma StagesKeepTemplate(m1: Message, m2: Message, m3: Message, m4: Message, m5: Message, m6: Message, model: Model)
    requires AgreeExcept(m1, Template, {21, 22, SwingVerticalId, SwingHorizontalId})
    requires AgreeExcept(m2, m1, {ComfortId, BoostId, EcoId})
    requires model == ARC432A14 ==> AgreeExcept(m3, m2, {HeaderId, MessageId})
    requires model != ARC432A14 ==> AgreeExcept(m3, m2, {27, 28})
    requires AgreeExcept(m4, m3, {FirstFrameSize - 1})
    requires AgreeExcept(m5, m4, {SwingHorizontalId})
    requires AgreeExcept(m6, m5, {MessageSize - 1})
    ensures AgreeExcept(m6, Template, Written(model))
    ensures m6[TimeFrameOffset..StateFrameOffset] == Template[TimeFrameOffset..StateFrameOffset]
  {
    forall i | 0 <= i < MessageSize && i !in Written(model)
      ensures m6[i] == Template[i]
    {
      assert m6[i] == m5[i] == m4[i] == m3[i] == m2[i] == m1[i];
    }
    assert forall i :: TimeFrameOffset <= i < StateFrameOffset ==> i !in Written(model);
  }

  /** All three frames of a transmitted message carry a correct checksum,
      the checksums being computed after every flag and model byte. */
  lemma TransmitChecksums(s: ClimateState, model: Model)
    ensures ChecksumOk(Transmit(s, model).msg[..TimeFrameOffset])
    ensures ChecksumOk(Transmit(s, model).msg[TimeFrameOffset..StateFrameOffset])
    ensures ChecksumOk(Transmit(s, model).msg[StateFrameOffset..])
  {
    var s' := StateAfterTransmit(s);
    var m3 := WriteModelBytes(WritePresetFlags(WriteFields(s, model), s.preset), model);
    var m4 := SealFirstFrame(m3);
    var m5 := MarkHorizontal(m4, s'.swing);
    var m6 := SealStateFrame(m5);
    assert m6[..TimeFrameOffset] == m4[..TimeFrameOffset];
    TransmitKeepsTemplate(s, model);
    TimeFrameChecksumHolds();
  }

  /** The header bytes of the template's three frames. */
  lemma TemplateHeaders()
    ensures Template[..5] == FirstFrameTemplate[..5] == [0x11, 0xDA, 0x27, 0x00, FirstFrameHeader]
    ensures Template[TimeFrameOffset..TimeFrameOffset + 5] == [0x11, 0xDA, 0x27, 0x00, TimeFrameHeader]
    ensures Template[StateFrameOffset..StateFrameOffset + 5] == [0x11, 0xDA, 0x27, 0x00, StateFrameHeader]
  {
    assert |FirstFrameTemplate| == 8 && |TimeFrameTemplate| == 8;
    assert Template[..5] == FirstFrameTemplate[..5];
    assert Template[TimeFrameOffset..TimeFrameOffset + 5] == TimeFrameTemplate[..5];
    assert Template[StateFrameOffset..StateFrameOffset + 5] == StateFrameTemplate[..5];
  }

  /** The frame headers as sent: the time and state frames always carry
      `11 DA 27 00` and their type byte; the first frame does too, except
      that ARC432A14 replaces bytes 3 and 4 with 0xF0 and 0x00. */
  lemma TransmitHeaders(s: ClimateState, model: Model)
    ensures Transmit(s, model).msg[..3] == [0x11, 0xDA, 0x27]
    ensures Transmit(s, model).msg[HeaderId] == (if model == ARC432A14 then 0xF0 else 0x00)
    ensures Transmit(s, model).msg[MessageId] == (if model == ARC432A14 then 0x00 else FirstFrameHeader)
    ensures Transmit(s, model).msg[TimeFrameOffset..TimeFrameOffset + 5] == [0x11, 0xDA, 0x27, 0x00, TimeFrameHeader]
    ensures Transmit(s, model).msg[StateFrameOffset..StateFrameOffset + 5] == [0x11, 0xDA, 0x27, 0x00, StateFrameHeader]
  {
    var s' := StateAfterTransmit(s);
    var m3 := WriteModelBytes(WritePresetFlags(WriteFields(s, model), s.preset), model);
    var m4 := SealFirstFrame(m3);
    var m5 := MarkHorizontal(m4, s'.swing);
    var m6 := SealStateFrame(m5);
    TransmitKeepsTemplate(s, model);
    TemplateHeaders();
    HeadersOf(m3, m6, model);
  }

  /** The header bytes of the finished message, given the template's and
      the model step's. */
  lemma HeadersOf(m3: Message, m6: Message, model: Model)
    requires AgreeExcept(m6, Template, Written(model))
    requires m6[..FirstFrameSize - 1] == m3[..FirstFrameSize - 1]
    requires model == ARC432A14 ==> m3[HeaderId] == 0xF0 && m3[MessageId] == 0x00
    requires Template[..5] == [0x11, 0xDA, 0x27, 0x00, FirstFrameHeader]
    requires Template[TimeFrameOffset..TimeFrameOffset + 5] == [0x11, 0xDA, 0x27, 0x00, TimeFrameHeader]
    requires Template[StateFrameOffset..StateFrameOffset + 5] == [0x11, 0xDA, 0x27, 0x00, StateFrameHeader]
    ensures m6[..3] == [0x11, 0xDA, 0x27]
    ensures m6[HeaderId] == (if model == ARC432A14 then 0xF0 else 0x00)
    ensures m6[MessageId] == (if model == ARC432A14 then 0x00 else FirstFrameHeader)
    ensures m6[TimeFrameOffset..TimeFrameOffset + 5] == [0x11, 0xDA, 0x27, 0x00, TimeFrameHeader]
    ensures m6[StateFrameOffset..StateFrameOffset + 5] == [0x11, 0xDA, 0x27, 0x00, StateFrameHeader]
  {
    assert m6[HeaderId] == m3[HeaderId] && m6[MessageId] == m3[MessageId];
    assert m6[..3] == Template[..3];
    assert m6[TimeFrameOffset..TimeFrameOffset + 5] == Template[TimeFrameOffset..TimeFrameOffset + 5];
    assert m6[StateFrameOffset..StateFrameOffset + 5] == Template[StateFrameOffset..StateFrameOffset + 5];
  }

  /** The field bytes of the finished message: the mode, the temperature
      and the fan word's high byte as encoded, and the fan word's low byte
      with the high nibble set when the narrowed swing is horizontal only. */
  lemma TransmitFieldBytes(s: ClimateState, model: Model)
    ensures Transmit(s, model).msg[21] == EncodeMode(s.mode)
    ensures DecodeMode(Transmit(s, model).msg[21]) == Some(s.mode)
    ensures Transmit(s, model).msg[22] == EncodeTemperature(s.mode, s.target, model)
    ensures Transmit(s, model).msg[SwingVerticalId] == EncodeFanSwing(s.fan, s.swing).high
    ensures Transmit(s, model).msg[SwingHorizontalId] ==
              if Transmit(s, model).state.swing == SwingHorizontal then OrHighNibble(EncodeFanSwing(s.fan, s.swing).low)
              else EncodeFanSwing(s.fan, s.swing).low
  {
    var s' := StateAfterTransmit(s);
    var m1 := WriteFields(s, model);
    var m2 := WritePresetFlags(m1, s.preset);
    var m3 := WriteModelBytes(m2, model);
    var m4 := SealFirstFrame(m3);
    var m5 := MarkHorizontal(m4, s'.swing);
    var m6 := SealStateFrame(m5);
    assert Transmit(s, model) == Transmission(m6, s');
    FieldBytesOf(m1, m2, m3, m4, m5, m6, model);
  }

  /** The preset bytes of the finished message: 0x10 at byte 6 for
      Comfort, 0x01 at byte 29 for Boost, and bit 2 of byte 32 for Eco
      unless Boost is selected; zero otherwise. */
  lemma TransmitPresetBytes(s: ClimateState, model: Model)
    ensures Transmit(s, model).msg[ComfortId] == if s.preset == Some(PresetComfort) then 0x10 else 0x00
    ensures Transmit(s, model).msg[BoostId] == if s.preset == Some(PresetBoost) then 0x01 else 0x00
    ensures Transmit(s, model).msg[EcoId] == if s.preset == Some(PresetEco) then 0x04 else 0x00
  {
    var s' := StateAfterTransmit(s);
    var m1 := WriteFields(s, model);
    var m2 := WritePresetFlags(m1, s.preset);
    var m3 := WriteModelBytes(m2, model);
    var m4 := SealFirstFrame(m3);
    var m5 := MarkHorizontal(m4, s'.swing);
    var m6 := SealStateFrame(m5);
    assert Transmit(s, model) == Transmission(m6, s');
    TemplateFlagBytes();
    FieldBytesOf(m1, m2, m3, m4, m5, m6, model);
    PresetFlagsOnZero(m1, m2, s.preset);
  }

  /** The preset step on flag bytes that are still zero. */
  lemma PresetFlagsOnZero(m: Message, r: Message, preset: Option<Preset>)
    requires m[ComfortId] == 0x00 && m[BoostId] == 0x00 && m[EcoId] == 0x00
    requires r[ComfortId] == (if preset == Some(PresetComfort) then 0x10 else m[ComfortId])
    requires r[BoostId] == (if preset == Some(PresetBoost) then 0x01 else m[BoostId])
    requires r[EcoId] == (if preset == Some(PresetEco) then OrBit2(m[EcoId]) else m[EcoId])
    ensures r[ComfortId] == (if preset == Some(PresetComfort) then 0x10 else 0x00)
    ensures r[BoostId] == (if preset == Some(PresetBoost) then 0x01 else 0x00)
    ensures r[EcoId] == (if preset == Some(PresetEco) then 0x04 else 0x00)
  {
    assert OrBit2(0x00) == 0x04;
  }

  /** The template holds zero at the flag bytes. */
  lemma TemplateFlagBytes()
    ensures Template[ComfortId] == 0x00 && Template[BoostId] == 0x00 && Template[EcoId] == 0x00
  {
    assert |FirstFrameTemplate| == 8 && |TimeFrameTemplate| == 8;
    assert Template[ComfortId] == FirstFrameTemplate[ComfortId];
    assert Template[BoostId] == StateFrameTemplate[BoostId - StateFrameOffset];
    assert Template[EcoId] == StateFrameTemplate[EcoId - StateFrameOffset];
  }

  /** Positions no later stage writes keep the value an earlier stage gave them. */
  lemma FieldBytesOf(m1: Message, m2: Message, m3: Message, m4: Message, m5: Message, m6: Message, model: Model)
    requires AgreeExcept(m1, Template, {21, 22, SwingVerticalId, SwingHorizontalId})
    requires AgreeExcept(m2, m1, {ComfortId, BoostId, EcoId})
    requires model == ARC432A14 ==> AgreeExcept(m3, m2, {HeaderId, MessageId})
    requires model != ARC432A14 ==> AgreeExcept(m3, m2, {27, 28})
    requires AgreeExcept(m4, m3, {FirstFrameSize - 1})
    requires AgreeExcept(m5, m4, {SwingHorizontalId})
    requires AgreeExcept(m6, m5, {MessageSize - 1})
    ensures m6[21] == m1[21] && m6[22] == m1[22] && m6[SwingVerticalId] == m1[SwingVerticalId]
    ensures m6[SwingHorizontalId] == m5[SwingHorizontalId] && m4[SwingHorizontalId] == m1[SwingHorizontalId]
    ensures m6[ComfortId] == m2[ComfortId] && m6[BoostId] == m2[BoostId] && m6[EcoId] == m2[EcoId]
    ensures m1[ComfortId] == Template[ComfortId] && m1[BoostId] == Template[BoostId] && m1[EcoId] == Template[EcoId]
  {
  }
}

