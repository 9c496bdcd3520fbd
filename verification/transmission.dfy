/** Transmitter and receiver together: what the firmware's own receive path
    makes of the pulses its transmit path sends, frame by frame. */
module Transmission {
  import opened Optional
  import opened Bytes
  import opened Climate
  import opened DaikinConstants
  import opened FieldCodec
  import opened Checksum
  import opened PulseCodec
  import opened Assembler
  import opened Receiver
  import opened Presets

  /** The three frames of a message. */
  function FirstFrame(msg: Message): (f: seq<Byte>)
    ensures |f| == FirstFrameSize
  {
    msg[..TimeFrameOffset]
  }

  function TimeFrame(msg: Message): (f: seq<Byte>)
    ensures |f| == TimeFrameSize
  {
    msg[TimeFrameOffset..StateFrameOffset]
  }

  function StateFrame(msg: Message): (f: seq<Byte>)
    ensures |f| == StateFrameSize
  {
    msg[StateFrameOffset..]
  }

  /** The serialized message is its frames' bursts in order, the time
      frame's left out for ARC432A14. */
  lemma SerializeIsBursts(msg: Message, model: Model)
    ensures Serialize(msg, model) ==
              Burst(FirstFrame(msg), FrameGap)
              + (if model == ARC432A14 then [] else Burst(TimeFrame(msg), FrameGap))
              + Burst(StateFrame(msg), EndMark)
  {
  }

  lemma AppendAssoc<T>(a: seq<T>, b: seq<T>, c: seq<T>)
    ensures a + b + c == a + (b + c)
  {
  }

  /** What the receiver does with one burst followed by anything: it reads
      exactly the burst's bytes and decides on them. */
  lemma ReceiveBurst(r: ClimateState, bytes: seq<Byte>, trailer: Pulse, more: seq<Pulse>)
    requires |bytes| <= MaxFrameSize
    requires trailer == FrameGap || trailer == EndMark
    ensures Receive(r, Burst(bytes, trailer) + more) == Verdict(r, bytes)
  {
    var p := Burst(bytes, trailer) + more;
    TrailersAreNotBits();
    ReceiveIsVerdict(r, p);
    ReadBurst(bytes, trailer, more, MaxFrameSize);
  }

  /** A burst carrying a well-formed frame of a known type with a correct
      checksum is accepted, and the state is that type's extractor's
      result, published. */
  lemma GoodFrameBurst(r: ClimateState, f: seq<Byte>, trailer: Pulse, more: seq<Pulse>)
    requires HeaderSize < |f| <= MaxFrameSize && f[..HeaderSize] == FrameHeader
    requires IsFrameType(f[HeaderSize]) && FrameSize(f[HeaderSize]) == |f| && ChecksumOk(f)
    requires trailer == FrameGap || trailer == EndMark
    ensures Receive(r, Burst(f, trailer) + more) == ParseFrameType(r, f[HeaderSize], f)
    ensures Receive(r, Burst(f, trailer) + more).accepted
  {
    ReceiveBurst(r, f, trailer, more);
    VerdictComplete(r, f);
    assert f[..|f|] == f;
  }

  /** A frame starts with the fixed header exactly when its first four
      bytes are those of the header. */
  lemma HeaderBytes(f: seq<Byte>)
    requires |f| > HeaderSize
    ensures f[..HeaderSize] == FrameHeader <==> f[0] == 0x11 && f[1] == 0xDA && f[2] == 0x27 && f[3] == 0x00
  {
    if f[0] == 0x11 && f[1] == 0xDA && f[2] == 0x27 && f[3] == 0x00 {
      assert f[..HeaderSize] == [f[0], f[1], f[2], f[3]];
    }
  }

  /** The header bytes the transmitter writes, read as frames. */
  lemma FrameHeadersOf(msg: Message, first: Byte)
    requires msg[..3] == [0x11, 0xDA, 0x27] && msg[HeaderId] == 0x00 && msg[MessageId] == first
    requires msg[TimeFrameOffset..TimeFrameOffset + 5] == [0x11, 0xDA, 0x27, 0x00, TimeFrameHeader]
    requires msg[StateFrameOffset..StateFrameOffset + 5] == [0x11, 0xDA, 0x27, 0x00, StateFrameHeader]
    ensures FirstFrame(msg)[..HeaderSize] == FrameHeader && FirstFrame(msg)[HeaderSize] == first
    ensures TimeFrame(msg)[..HeaderSize] == FrameHeader && TimeFrame(msg)[HeaderSize] == TimeFrameHeader
    ensures StateFrame(msg)[..HeaderSize] == FrameHeader && StateFrame(msg)[HeaderSize] == StateFrameHeader
  {
    assert msg[0] == msg[..3][0] && msg[1] == msg[..3][1] && msg[2] == msg[..3][2];
    HeaderBytes(FirstFrame(msg));
    var t := msg[TimeFrameOffset..TimeFrameOffset + 5];
    assert TimeFrame(msg)[..5] == t;
    HeaderBytes(TimeFrame(msg));
    var u := msg[StateFrameOffset..StateFrameOffset + 5];
    assert StateFrame(msg)[..5] == u;
    HeaderBytes(StateFrame(msg));
  }

  /** The state frame of a message whose state-frame header and checksum
      are right is accepted on its own. */
  lemma StateBurstAccepted(r: ClimateState, msg: Message, more: seq<Pulse>)
    requires msg[StateFrameOffset..StateFrameOffset + 5] == [0x11, 0xDA, 0x27, 0x00, StateFrameHeader]
    requires ChecksumOk(StateFrame(msg))
    ensures Receive(r, Burst(StateFrame(msg), EndMark) + more) == Received(true, Publish(ParseStateFrame(r, StateFrame(msg))))
  {
    var u := msg[StateFrameOffset..StateFrameOffset + 5];
    assert StateFrame(msg)[..5] == u;
    HeaderBytes(StateFrame(msg));
    GoodFrameBurst(r, StateFrame(msg), EndMark, more);
  }

  /** The time frame of a message whose time-frame header and checksum
      are right is accepted on its own and changes nothing but the publish
      count. */
  lemma TimeBurstAccepted(r: ClimateState, msg: Message, more: seq<Pulse>)
    requires msg[TimeFrameOffset..TimeFrameOffset + 5] == [0x11, 0xDA, 0x27, 0x00, TimeFrameHeader]
    requires ChecksumOk(TimeFrame(msg))
    ensures Receive(r, Burst(TimeFrame(msg), FrameGap) + more) == Received(true, Publish(r))
  {
    var t := msg[TimeFrameOffset..TimeFrameOffset + 5];
    assert TimeFrame(msg)[..5] == t;
    HeaderBytes(TimeFrame(msg));
    GoodFrameBurst(r, TimeFrame(msg), FrameGap, more);
  }

  /** A first frame whose byte 3 is not the header's is refused, whatever follows. */
  lemma FirstBurstRefused(r: ClimateState, msg: Message, more: seq<Pulse>)
    requires msg[HeaderId] != 0x00
    ensures Receive(r, Burst(FirstFrame(msg), FrameGap) + more) == Reject(r)
  {
    ReceiveBurst(r, FirstFrame(msg), FrameGap, more);
    VerdictBadHeader(r, FirstFrame(msg), HeaderId);
  }

  /** ARC470A1: each of the three bursts, received on its own, is
      accepted; the first applies the comfort byte, the time frame changes
      nothing but the publish count, the state frame applies its fields. */
  lemma Arc470a1BurstsAccepted(s: ClimateState, r: ClimateState, more: seq<Pulse>)
    ensures var msg := Transmit(s, ARC470A1).msg;
            Receive(r, Burst(FirstFrame(msg), FrameGap) + more) == Received(true, Publish(ParseFirstFrame(r, FirstFrame(msg))))
    ensures var msg := Transmit(s, ARC470A1).msg;
            Receive(r, Burst(TimeFrame(msg), FrameGap) + more) == Received(true, Publish(r))
    ensures var msg := Transmit(s, ARC470A1).msg;
            Receive(r, Burst(StateFrame(msg), EndMark) + more) == Received(true, Publish(ParseStateFrame(r, StateFrame(msg))))
  {
    var msg := Transmit(s, ARC470A1).msg;
    TransmitChecksums(s, ARC470A1);
    TransmitHeaders(s, ARC470A1);
    FrameHeadersOf(msg, FirstFrameHeader);
    GoodFrameBurst(r, FirstFrame(msg), FrameGap, more);
    GoodFrameBurst(r, TimeFrame(msg), FrameGap, more);
    GoodFrameBurst(r, StateFrame(msg), EndMark, more);
  }

  /** ARC432A14: the first frame, whose bytes 3 and 4 the model step
      overwrote with 0xF0 and 0x00, is refused by the firmware's own
      receiver (its header byte 3 must be 0x00), while the state frame is
      accepted. */
  lemma Arc432a14FirstBurstRefused(s: ClimateState, r: ClimateState, more: seq<Pulse>)
    ensures var msg := Transmit(s, ARC432A14).msg;
            Receive(r, Burst(FirstFrame(msg), FrameGap) + more) == Reject(r)
    ensures var msg := Transmit(s, ARC432A14).msg;
            Receive(r, Burst(StateFrame(msg), EndMark) + more) == Received(true, Publish(ParseStateFrame(r, StateFrame(msg))))
  {
    var msg := Transmit(s, ARC432A14).msg;
    TransmitChecksums(s, ARC432A14);
    TransmitHeaders(s, ARC432A14);
    FirstBurstRefused(r, msg, more);
    StateBurstAccepted(r, msg, more);
  }

  /** A whole transmission captured in one piece is decided on its first
      frame alone: the gap after it ends the byte loop's input. */
  lemma WholeTransmissionReadsFirstFrame(msg: Message, model: Model, r: ClimateState)
    ensures Receive(r, Serialize(msg, model)) == Verdict(r, FirstFrame(msg))
  {
    var first := Burst(FirstFrame(msg), FrameGap);
    var time := if model == ARC432A14 then [] else Burst(TimeFrame(msg), FrameGap);
    var state := Burst(StateFrame(msg), EndMark);
    SerializeIsBursts(msg, model);
    AppendAssoc(first, time, state);
    ReceiveBurst(r, FirstFrame(msg), FrameGap, time + state);
  }

  /** Where the state frame's burst starts in the serialized pairs: after
      the first frame's 66 pairs, and the time frame's 66 more unless the
      model is ARC432A14. */
  function StateBurstStart(model: Model): (k: nat)
    ensures k == 8 * FirstFrameSize + 2 + (if model == ARC432A14 then 0 else 8 * TimeFrameSize + 2)
  {
    if model == ARC432A14 then 66 else 132
  }

  /** Dropping the first frame's burst from the serialized pairs leaves
      the bursts of the frames after it. */
  lemma SerializeSuffixes(msg: Message, model: Model)
    ensures model != ARC432A14 ==>
              Serialize(msg, model)[66..] == Burst(TimeFrame(msg), FrameGap) + Burst(StateFrame(msg), EndMark)
    ensures Serialize(msg, model)[StateBurstStart(model)..] == Burst(StateFrame(msg), EndMark)
  {
    var first := Burst(FirstFrame(msg), FrameGap);
    var time := if model == ARC432A14 then [] else Burst(TimeFrame(msg), FrameGap);
    var state := Burst(StateFrame(msg), EndMark);
    SerializeIsBursts(msg, model);
    AppendAssoc(first, time, state);
    assert Serialize(msg, model)[66..] == time + state;
    assert Serialize(msg, model)[StateBurstStart(model)..] == (time + state)[|time|..];
  }

  /** The pairs from the time frame's leader on are read as the time frame
      (ARC470A1 sends one). */
  lemma StreamReadsTimeFrame(msg: Message, r: ClimateState)
    ensures Receive(r, Serialize(msg, ARC470A1)[66..]) == Verdict(r, TimeFrame(msg))
  {
    SerializeSuffixes(msg, ARC470A1);
    ReceiveBurst(r, TimeFrame(msg), FrameGap, Burst(StateFrame(msg), EndMark));
  }

  /** The pairs from the state frame's leader on are read as the state
      frame, whichever model sent them. */
  lemma StreamReadsStateFrame(msg: Message, model: Model, r: ClimateState)
    ensures Receive(r, Serialize(msg, model)[StateBurstStart(model)..]) == Verdict(r, StateFrame(msg))
  {
    SerializeSuffixes(msg, model);
    assert Burst(StateFrame(msg), EndMark) + [] == Burst(StateFrame(msg), EndMark);
    ReceiveBurst(r, StateFrame(msg), EndMark, []);
  }

  /** The length the receiver expects for each frame type the transmitter
      writes is the length of that frame in the message layout, except for
      the first frame ARC432A14 sends: its type byte is overwritten with
      0x00, the state frame's type, whose length is 19, not 8. */
  lemma TransmittedFramesSized(s: ClimateState, model: Model)
    ensures var msg := Transmit(s, model).msg;
            FrameSize(TimeFrame(msg)[HeaderSize]) == |TimeFrame(msg)| == StateFrameOffset - TimeFrameOffset
    ensures var msg := Transmit(s, model).msg;
            FrameSize(StateFrame(msg)[HeaderSize]) == |StateFrame(msg)| == MessageSize - StateFrameOffset
    ensures var msg := Transmit(s, model).msg;
            model != ARC432A14 ==> FrameSize(FirstFrame(msg)[HeaderSize]) == |FirstFrame(msg)| == TimeFrameOffset
    ensures var msg := Transmit(s, model).msg;
            model == ARC432A14 ==> FirstFrame(msg)[HeaderSize] == StateFrameHeader && FrameSize(FirstFrame(msg)[HeaderSize]) != |FirstFrame(msg)|
  {
    var msg := Transmit(s, model).msg;
    TransmitHeaders(s, model);
    FrameSizesOf(msg, model);
  }

  /** The frame lengths of a message whose type bytes are the ones the
      transmitter writes. */
  lemma FrameSizesOf(msg: Message, model: Model)
    requires msg[MessageId] == (if model == ARC432A14 then 0x00 else FirstFrameHeader)
    requires msg[TimeFrameOffset..TimeFrameOffset + 5] == [0x11, 0xDA, 0x27, 0x00, TimeFrameHeader]
    requires msg[StateFrameOffset..StateFrameOffset + 5] == [0x11, 0xDA, 0x27, 0x00, StateFrameHeader]
    ensures FrameSize(TimeFrame(msg)[HeaderSize]) == |TimeFrame(msg)| == StateFrameOffset - TimeFrameOffset
    ensures FrameSize(StateFrame(msg)[HeaderSize]) == |StateFrame(msg)| == MessageSize - StateFrameOffset
    ensures model != ARC432A14 ==> FrameSize(FirstFrame(msg)[HeaderSize]) == |FirstFrame(msg)| == TimeFrameOffset
    ensures model == ARC432A14 ==> FirstFrame(msg)[HeaderSize] == StateFrameHeader && FrameSize(FirstFrame(msg)[HeaderSize]) != |FirstFrame(msg)|
  {
    assert FirstFrame(msg)[HeaderSize] == msg[MessageId];
    assert TimeFrame(msg)[HeaderSize] == msg[TimeFrameOffset..TimeFrameOffset + 5][4];
    assert StateFrame(msg)[HeaderSize] == msg[StateFrameOffset..StateFrameOffset + 5][4];
  }

  /** A message whose byte 3 is not the header's is refused when its
      pairs are received in one piece. */
  lemma StreamRefused(msg: Message, model: Model, r: ClimateState)
    requires msg[HeaderId] != 0x00
    ensures Receive(r, Serialize(msg, model)) == Reject(r)
  {
    WholeTransmissionReadsFirstFrame(msg, model, r);
    VerdictBadHeader(r, FirstFrame(msg), HeaderId);
  }

  /** A message whose first frame is well formed and checksummed is
      accepted as that frame when its pairs are received in one piece. */
  lemma StreamFirstAccepted(msg: Message, model: Model, r: ClimateState)
    requires FirstFrame(msg)[..HeaderSize] == FrameHeader && FirstFrame(msg)[HeaderSize] == FirstFrameHeader
    requires ChecksumOk(FirstFrame(msg))
    ensures Receive(r, Serialize(msg, model)) == Received(true, Publish(ParseFirstFrame(r, FirstFrame(msg))))
  {
    var f := FirstFrame(msg);
    WholeTransmissionReadsFirstFrame(msg, model, r);
    VerdictComplete(r, f);
    assert f[..|f|] == f;
  }

  /** The pairs from the time frame's leader on, for a message whose time
      frame is well formed and checksummed, are accepted as that frame,
      which changes nothing but the publish count. */
  lemma StreamTimeAccepted(msg: Message, r: ClimateState)
    requires msg[TimeFrameOffset..TimeFrameOffset + 5] == [0x11, 0xDA, 0x27, 0x00, TimeFrameHeader]
    requires ChecksumOk(TimeFrame(msg))
    ensures Receive(r, Serialize(msg, ARC470A1)[66..]) == Received(true, Publish(r))
  {
    var more := Burst(StateFrame(msg), EndMark);
    StreamReadsTimeFrame(msg, r);
    ReceiveBurst(r, TimeFrame(msg), FrameGap, more);
    TimeBurstAccepted(r, msg, more);
  }

  /** The pairs from the state frame's leader on, for a message whose state
      frame is well formed and checksummed, are accepted as that frame. */
  lemma StreamStateAccepted(msg: Message, model: Model, r: ClimateState)
    requires msg[StateFrameOffset..StateFrameOffset + 5] == [0x11, 0xDA, 0x27, 0x00, StateFrameHeader]
    requires ChecksumOk(StateFrame(msg))
    ensures Receive(r, Serialize(msg, model)[StateBurstStart(model)..]) == Received(true, Publish(ParseStateFrame(r, StateFrame(msg))))
  {
    StreamReadsStateFrame(msg, model, r);
    StateBurstAccepted(r, msg, []);
    assert Burst(StateFrame(msg), EndMark) + [] == Burst(StateFrame(msg), EndMark);
  }

  /** What a receiver makes of the pairs an ARC470A1 transmission sends,
      read from each frame's leader on: the whole stream is accepted as
      the first frame, the stream from the time frame on as the time frame
      (nothing changes but the publish count), and the stream from the
      state frame on as the state frame. */
  lemma Arc470a1StreamAccepted(s: ClimateState, r: ClimateState)
    ensures var msg := Transmit(s, ARC470A1).msg;
            Receive(r, Serialize(msg, ARC470A1)) == Received(true, Publish(ParseFirstFrame(r, FirstFrame(msg))))
    ensures var msg := Transmit(s, ARC470A1).msg;
            Receive(r, Serialize(msg, ARC470A1)[66..]) == Received(true, Publish(r))
    ensures var msg := Transmit(s, ARC470A1).msg;
            Receive(r, Serialize(msg, ARC470A1)[132..]) == Received(true, Publish(ParseStateFrame(r, StateFrame(msg))))
  {
    var msg := Transmit(s, ARC470A1).msg;
    TransmitChecksums(s, ARC470A1);
    TransmitHeaders(s, ARC470A1);
    FrameHeadersOf(msg, FirstFrameHeader);
    StreamFirstAccepted(msg, ARC470A1, r);
    StreamTimeAccepted(msg, r);
    StreamStateAccepted(msg, ARC470A1, r);
  }

  /** What a receiver makes of the pairs an ARC432A14 transmission sends:
      the whole stream is refused, its first frame's header byte 3 being
      0xF0, and the stream from the state frame's leader on is accepted as
      the state frame. */
  lemma Arc432a14StreamReadBack(s: ClimateState, r: ClimateState)
    ensures var msg := Transmit(s, ARC432A14).msg;
            Receive(r, Serialize(msg, ARC432A14)) == Reject(r)
    ensures var msg := Transmit(s, ARC432A14).msg;
            Receive(r, Serialize(msg, ARC432A14)[66..]) == Received(true, Publish(ParseStateFrame(r, StateFrame(msg))))
  {
    var msg := Transmit(s, ARC432A14).msg;
    TransmitChecksums(s, ARC432A14);
    TransmitHeaders(s, ARC432A14);
    StreamRefused(msg, ARC432A14, r);
    StreamStateAccepted(msg, ARC432A14, r);
  }

  /* ---------- The state frame, sent and read back ---------- */

  /** The target a receiver in state `r` ends with after reading the state
      frame sent for `s`: the clamped target when the mode carries one and
      it stays below 32 degrees, 25 in fan-only mode (its 0x32 sentinel
      read as a temperature), and otherwise the receiver's own target
      (auto and dry send 0xC0, and 32 degrees is sent as 0x40; both have a
      top bit set). */
  function ReceivedTarget(s: ClimateState, model: Model, r: ClimateState): int {
    if CarriesTarget(s.mode) && SentTarget(s.target, model) < 32 then SentTarget(s.target, model)
    else if s.mode == FanOnly then 25
    else r.target
  }

  /** The temperature byte the transmitter writes, read back. */
  lemma TargetReadBack(r: ClimateState, f: seq<Byte>, s: ClimateState, model: Model)
    requires |f| == StateFrameSize
    requires f[6] == EncodeTemperature(s.mode, s.target, model)
    ensures ParseStateFrame(r, f).target == ReceivedTarget(s, model, r)
  {
    var got := ParseStateFrame(r, f);
    if CarriesTarget(s.mode) {
      var t := SentTarget(s.target, model);
      if t < 32 {
        assert DecodeTemperature(f[6]) == Some(t);
        assert 2 * got.target == 2 * t;
      }
    } else if s.mode == FanOnly {
      assert f[6] == 0x32;
    }
  }

  /** Swing nibbles that are non-zero exactly for the directions of
      `sw` read back as `sw`. */
  lemma SwingReadBack(r: ClimateState, f: seq<Byte>, sw: SwingMode)
    requires |f| == StateFrameSize
    requires HasVertical(sw) <==> LowNibble(f[8]) != 0
    requires HasHorizontal(sw) <==> LowNibble(f[9]) != 0
    ensures ParseStateFrame(r, f).swing == sw
  {
    DecodeSwingNibbles(f[8], f[9], sw);
  }

  /** A fan byte whose high nibble is the code of `fan` reads back as
      `fan`, except Focus, whose code the extractor does not know. */
  lemma FanReadBack(r: ClimateState, f: seq<Byte>, fan: FanMode)
    requires |f| == StateFrameSize
    requires HighNibble(f[8]) == FanHighCode(fan)
    ensures ParseStateFrame(r, f).fan == if fan == FanFocus then r.fan else fan
  {
    DecodeSpeedCode(f[8], fan);
  }

  /** What the state-frame extractor makes of the preset bytes the
      transmitter writes: Boost is recognised and arms the auto-clear, the
      Eco flag 0x04 is not the 0x84 the extractor looks for, so the
      receiver keeps its preset. */
  lemma PresetsReadBack(r: ClimateState, f: seq<Byte>, preset: Option<Preset>)
    requires |f| == StateFrameSize
    requires f[13] == if preset == Some(PresetBoost) then 0x01 else 0x00
    requires f[16] == if preset == Some(PresetEco) then 0x04 else 0x00
    ensures ParseStateFrame(r, f).preset == if preset == Some(PresetBoost) then Some(PresetBoost) else r.preset
    ensures ParseStateFrame(r, f).boostTimerArmed <==> preset == Some(PresetBoost) || r.boostTimerArmed
  {
  }

  /** The horizontal marker ORed into byte 25 leaves its swing nibble alone. */
  lemma MarkerKeepsSwingNibble(x: Byte, low: Byte, marked: bool)
    requires x == if marked then OrHighNibble(low) else low
    ensures LowNibble(x) == LowNibble(low)
  {
  }

  /** What the state-frame extractor makes of a frame whose field bytes
      are those the transmitter writes for `s`. */
  lemma FieldsReadBack(r: ClimateState, f: seq<Byte>, s: ClimateState, model: Model)
    requires |f| == StateFrameSize
    requires DecodeMode(f[5]) == Some(s.mode)
    requires f[6] == EncodeTemperature(s.mode, s.target, model)
    requires f[8] == EncodeFanSwing(s.fan, s.swing).high
    requires LowNibble(f[9]) == LowNibble(EncodeFanSwing(s.fan, s.swing).low)
    ensures ParseStateFrame(r, f).mode == s.mode
    ensures ParseStateFrame(r, f).target == ReceivedTarget(s, model, r)
    ensures ParseStateFrame(r, f).swing == s.swing
    ensures ParseStateFrame(r, f).fan == if s.fan == FanFocus then r.fan else s.fan
  {
    TargetReadBack(r, f, s, model);
    FanSwingNibbles(s.fan, s.swing);
    SwingReadBack(r, f, s.swing);
    FanReadBack(r, f, s.fan);
  }

  /** Round trip of the state frame: mode and swing come back as the
      sender had them (the swing as requested, before the Comfort
      narrowing), the fan unless it is Focus, the target as
      `ReceivedTarget` says. */
  lemma StateFrameRoundTrip(s: ClimateState, model: Model, r: ClimateState)
    ensures ParseStateFrame(r, StateFrame(Transmit(s, model).msg)).mode == s.mode
    ensures ParseStateFrame(r, StateFrame(Transmit(s, model).msg)).target == ReceivedTarget(s, model, r)
    ensures ParseStateFrame(r, StateFrame(Transmit(s, model).msg)).swing == s.swing
    ensures ParseStateFrame(r, StateFrame(Transmit(s, model).msg)).fan == if s.fan == FanFocus then r.fan else s.fan
  {
    var t := Transmit(s, model);
    var f := StateFrame(t.msg);
    TransmitFieldBytes(s, model);
    assert f[5] == t.msg[21] && f[6] == t.msg[22];
    assert f[8] == t.msg[SwingVerticalId] && f[9] == t.msg[SwingHorizontalId];
    MarkerKeepsSwingNibble(f[9], EncodeFanSwing(s.fan, s.swing).low, t.state.swing == SwingHorizontal);
    FieldsReadBack(r, f, s, model);
  }

  /** Round trip of the preset flags in the state frame. */
  lemma StateFramePresets(s: ClimateState, model: Model, r: ClimateState)
    ensures ParseStateFrame(r, StateFrame(Transmit(s, model).msg)).preset ==
              if s.preset == Some(PresetBoost) then Some(PresetBoost) else r.preset
    ensures ParseStateFrame(r, StateFrame(Transmit(s, model).msg)).boostTimerArmed <==>
              s.preset == Some(PresetBoost) || r.boostTimerArmed
  {
    var t := Transmit(s, model);
    var f := StateFrame(t.msg);
    TransmitPresetBytes(s, model);
    assert f[13] == t.msg[BoostId] && f[16] == t.msg[EcoId];
    PresetsReadBack(r, f, s.preset);
  }

  /** The Comfort preset's first frame, read back: the comfort byte is
      0x10 exactly for Comfort, and the receiver then selects Comfort and
      narrows its own swing. */
  lemma FirstFrameRoundTrip(s: ClimateState, model: Model, r: ClimateState)
    ensures ParseFirstFrame(r, FirstFrame(Transmit(s, model).msg)) ==
              if s.preset == Some(PresetComfort) then r.(preset := Some(PresetComfort), swing := ComfortSwing(r.swing))
              else r
  {
    var t := Transmit(s, model);
    TransmitPresetBytes(s, model);
    assert FirstFrame(t.msg)[ComfortId] == t.msg[ComfortId];
  }

  /** Comfort with both swings: the sender's own state drops to horizontal
      swing, yet its state frame still carries both swing nibbles, so a
      receiver reading that frame reports both. */
  lemma ComfortBothSwingDisagrees(s: ClimateState, model: Model, r: ClimateState)
    requires s.preset == Some(PresetComfort) && s.swing == SwingBoth
    ensures Transmit(s, model).state.swing == SwingHorizontal
    ensures ParseStateFrame(r, StateFrame(Transmit(s, model).msg)).swing == SwingBoth
  {
    StateFrameRoundTrip(s, model, r);
  }

  /** Boost, sent and read back, is selected with its auto-clear armed;
      when the auto-clear fires the preset becomes None and the state is
      published. */
  lemma BoostReadBackThenExpires(s: ClimateState, model: Model, r: ClimateState)
    requires s.preset == Some(PresetBoost)
    ensures var got := ParseStateFrame(r, StateFrame(Transmit(s, model).msg));
            got.preset == Some(PresetBoost) && got.boostTimerArmed
            && BoostTimeoutFires(got).preset == Some(PresetNone)
            && !BoostTimeoutFires(got).boostTimerArmed
  {
    StateFramePresets(s, model, r);
  }
}
