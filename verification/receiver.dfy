/** The receive path of daikin.cpp: `on_receive` rebuilds a frame from the
    pulse pairs and checks its header, `frame_size_` picks the frame length
    from the type byte, `parse_frame_type_` verifies the checksum and
    dispatches, and the `parse_*_frame_` extractors update the state. */
module Receiver {
  import opened Optional
  import opened Bytes
  import opened Climate
  import opened DaikinConstants
  import opened FieldCodec
  import opened Checksum
  import opened PulseCodec

  /** What `on_receive` returns, with the entity state it leaves behind. */
  datatype Received = Received(accepted: bool, state: ClimateState)

  /** Refusal: `false`, and the state as it was. */
  function Reject(s: ClimateState): (r: Received)
    ensures !r.accepted && r.state == s
  {
    Received(false, s)
  }

  /** Bytes 0 to 3 of every frame. */
  const FrameHeader: seq<Byte> := [0x11, 0xDA, 0x27, 0x00]

  /** The three type bytes `frame_size_` knows. */
  predicate IsFrameType(t: Byte) {
    t == FirstFrameHeader || t == TimeFrameHeader || t == StateFrameHeader
  }

  /** `frame_size_`: the length of a frame of type `t`. The firmware
      returns -1 for an unknown type through a `uint8_t`, so the caller
      sees 0xFF, longer than any frame the receive loop can reach. */
  function FrameSize(t: Byte): (n: Byte)
    ensures IsFrameType(t) ==> HeaderSize < n <= MaxFrameSize
    ensures t == StateFrameHeader <==> n == MaxFrameSize
    ensures !IsFrameType(t) <==> n > MaxFrameSize
    ensures t == FirstFrameHeader || t == TimeFrameHeader ==> n == 8
    ensures !IsFrameType(t) ==> n == 0xFF
  {
    if t == FirstFrameHeader then FirstFrameSize
    else if t == TimeFrameHeader then TimeFrameSize
    else if t == StateFrameHeader then StateFrameSize
    else 0xFF
  }

  /** `parse_first_frame_`: a comfort byte of 0x10 selects the Comfort
      preset and narrows the swing; nothing else is read. */
  function ParseFirstFrame(s: ClimateState, frame: seq<Byte>): (r: ClimateState)
    requires |frame| > ComfortId
    ensures frame[ComfortId] == 0x10 ==> r.preset == Some(PresetComfort) && r.swing == ComfortSwing(s.swing)
    ensures frame[ComfortId] != 0x10 ==> r == s
    ensures r.(preset := s.preset, swing := s.swing) == s
  {
    if frame[ComfortId] == 0x10 then s.(preset := Some(PresetComfort), swing := ComfortSwing(s.swing))
    else s
  }

  /** `parse_state_frame_`: mode from byte 5, target from byte 6, swing
      from the low nibbles of bytes 8 and 9, fan speed from the high
      nibble of byte 8, Boost from byte 13 and Eco from byte 16. A byte
      the field decoder does not recognise leaves its attribute as it was. */
  function ParseStateFrame(s: ClimateState, frame: seq<Byte>): (r: ClimateState)
    requires |frame| == StateFrameSize
    ensures r.publishes == s.publishes
    ensures DecodeMode(frame[5]).Some? ==> r.mode == DecodeMode(frame[5]).value
    ensures DecodeMode(frame[5]).None? ==> r.mode == s.mode
    ensures frame[6] >= 64 ==> r.target == s.target
    ensures frame[6] < 64 ==> 0 <= r.target < 32 && 2 * r.target == frame[6] - frame[6] % 2
    ensures HasVertical(r.swing) <==> LowNibble(frame[8]) != 0
    ensures HasHorizontal(r.swing) <==> LowNibble(frame[9]) != 0
    ensures DecodeFan(frame[8]).Some? ==> r.fan == DecodeFan(frame[8]).value
    ensures DecodeFan(frame[8]).None? ==> r.fan == s.fan
    ensures frame[13] == 0x01 ==> r.preset == Some(PresetBoost) && r.boostTimerArmed
    ensures frame[13] != 0x01 ==> r.boostTimerArmed == s.boostTimerArmed
    ensures frame[13] != 0x01 && frame[16] == 0x84 ==> r.preset == Some(PresetEco)
    ensures frame[13] != 0x01 && frame[16] != 0x84 ==> r.preset == s.preset
  {
    var mode := DecodeMode(frame[5]).GetOr(s.mode);
    var target := DecodeTemperature(frame[6]).GetOr(s.target);
    var swing := DecodeSwing(frame[8], frame[9]);
    var fan := DecodeFan(frame[8]).GetOr(s.fan);
    var fields := s.(mode := mode, target := target, swing := swing, fan := fan);
    if frame[13] == 0x01 then fields.(preset := Some(PresetBoost), boostTimerArmed := true)
    else if frame[16] == 0x84 then fields.(preset := Some(PresetEco))
    else fields
  }

  /** `parse_frame_type_`: the last byte must be the checksum of the
      others; then the frame goes to the extractor of its type (the time
      frame's changes nothing) and the state is published. An unknown type
      is refused. */
  function ParseFrameType(s: ClimateState, ftype: Byte, frame: seq<Byte>): (r: Received)
    requires |frame| == FrameSize(ftype)
    ensures r.accepted <==> ChecksumOk(frame) && IsFrameType(ftype)
    ensures !r.accepted ==> r.state == s
    ensures r.accepted ==> r.state.publishes == s.publishes + 1
    ensures r.accepted && ftype == FirstFrameHeader ==> r.state == Publish(ParseFirstFrame(s, frame))
    ensures r.accepted && ftype == TimeFrameHeader ==> r.state == Publish(s)
    ensures r.accepted && ftype == StateFrameHeader ==> r.state == Publish(ParseStateFrame(s, frame))
  {
    if !ChecksumOk(frame) then Reject(s)
    else if ftype == FirstFrameHeader then Received(true, Publish(ParseFirstFrame(s, frame)))
    else if ftype == TimeFrameHeader then Received(true, Publish(s))
    else if ftype == StateFrameHeader then Received(true, Publish(ParseStateFrame(s, frame)))
    else Reject(s)
  }

  /** The byte loop of `on_receive` from position `|frame|` on, `frame`
      holding the bytes already read, `size` the frame size so far (the
      buffer size until byte 4 names the type) and `ftype` the type byte.
      Each position reads eight bits; bytes 0 to 3 must match the header;
      byte 4 fixes size and type; at position `size - 1` the frame is
      handed to `parse_frame_type_`, and after the last buffer position
      the loop gives up. */
  function ReceiveFrom(s: ClimateState, q: seq<Pulse>, frame: seq<Byte>, size: Byte, ftype: Byte): (r: Received)
    requires |frame| < MaxFrameSize
    requires |frame| <= HeaderSize ==> size == MaxFrameSize
    requires |frame| > HeaderSize ==> size == FrameSize(ftype)
    ensures !r.accepted ==> r.state == s
    ensures r.accepted ==> r.state.publishes == s.publishes + 1
    decreases MaxFrameSize - |frame|
  {
    var pos := |frame|;
    match ReadByte(q)
    case None => Reject(s)
    case Some((b, rest)) =>
      if pos < HeaderSize && b != FrameHeader[pos] then Reject(s)
      else
        var size' := if pos == HeaderSize then FrameSize(b) else size;
        var ftype' := if pos == HeaderSize then b else ftype;
        if pos == size' - 1 then ParseFrameType(s, ftype', frame + [b])
        else if pos + 1 < MaxFrameSize then ReceiveFrom(s, rest, frame + [b], size', ftype')
        else Reject(s)
  }

  /** `on_receive`: the leader pair, then the byte loop from position 0
      with the buffer-sized frame length and type 0x00. */
  function Receive(s: ClimateState, p: seq<Pulse>): (r: Received)
    ensures !r.accepted ==> r.state == s
    ensures r.accepted ==> r.state.publishes == s.publishes + 1
  {
    if |p| > 0 && p[0] == Leader then ReceiveFrom(s, p[1..], [], MaxFrameSize, 0x00)
    else Reject(s)
  }

  /* ---------- The receiver as a whole ---------- */

  /** The verdict on the bytes that follow the leader, read independently
      of the loop: the four header bytes, a known type byte, at least as
      many bytes as that type's size, and a correct checksum over them. */
  function Verdict(s: ClimateState, bs: seq<Byte>): (r: Received)
    requires |bs| <= MaxFrameSize
    ensures r.accepted <==>
              |bs| > HeaderSize && bs[..HeaderSize] == FrameHeader && IsFrameType(bs[HeaderSize])
              && FrameSize(bs[HeaderSize]) <= |bs| && ChecksumOk(bs[..FrameSize(bs[HeaderSize])])
    ensures !r.accepted ==> r.state == s
  {
    if |bs| <= HeaderSize || bs[..HeaderSize] != FrameHeader then Reject(s)
    else
      var size := FrameSize(bs[HeaderSize]);
      if |bs| < size then Reject(s)
      else ParseFrameType(s, bs[HeaderSize], bs[..size])
  }

  /** What the byte loop knows on entering position `|frame|`: the header
      bytes read so far are right, and from position 5 on, `size` and
      `ftype` come from byte 4 and the frame is not complete yet. */
  predicate LoopInvariant(frame: seq<Byte>, size: Byte, ftype: Byte) {
    && |frame| < MaxFrameSize
    && (|frame| <= HeaderSize ==> frame == FrameHeader[..|frame|] && size == MaxFrameSize)
    && (|frame| > HeaderSize ==>
          frame[..HeaderSize] == FrameHeader && ftype == frame[HeaderSize]
          && size == FrameSize(ftype) && |frame| < size)
  }

  /** The byte loop decides as the verdict does on the frame read so far
      followed by whatever the remaining pairs carry. */
  lemma {:induction false} ReceiveFromIsVerdict(s: ClimateState, q: seq<Pulse>, frame: seq<Byte>, size: Byte, ftype: Byte)
    requires LoopInvariant(frame, size, ftype)
    ensures ReceiveFrom(s, q, frame, size, ftype) == Verdict(s, frame + ReadBytes(q, MaxFrameSize - |frame|))
    decreases MaxFrameSize - |frame|, 2
  {
    var n := MaxFrameSize - |frame|;
    match ReadByte(q)
    case None =>
      assert ReceiveFrom(s, q, frame, size, ftype) == Reject(s);
      assert ReadBytes(q, n) == [];
      assert frame + [] == frame;
      VerdictShort(s, frame);
    case Some((b, rest)) =>
      assert ReadBytes(q, n) == [b] + ReadBytes(rest, n - 1);
      assert frame + ReadBytes(q, n) == frame + [b] + ReadBytes(rest, n - 1);
      var pos := |frame|;
      if pos < HeaderSize && b != FrameHeader[pos] {
        assert ReceiveFrom(s, q, frame, size, ftype) == Reject(s);
        VerdictBadHeader(s, frame + [b] + ReadBytes(rest, n - 1), pos);
      } else {
        ReceiveStepIsVerdict(s, q, frame, size, ftype, b, rest);
      }
  }

  /** One turn of the byte loop that read a byte `b` the header check lets
      through. */
  lemma {:induction false} ReceiveStepIsVerdict(s: ClimateState, q: seq<Pulse>, frame: seq<Byte>, size: Byte, ftype: Byte,
                                                b: Byte, rest: seq<Pulse>)
    requires LoopInvariant(frame, size, ftype)
    requires ReadByte(q) == Some((b, rest))
    requires |frame| < HeaderSize ==> b == FrameHeader[|frame|]
    ensures ReceiveFrom(s, q, frame, size, ftype) == Verdict(s, frame + [b] + ReadBytes(rest, MaxFrameSize - |frame| - 1))
    decreases MaxFrameSize - |frame|, 1
  {
    var pos := |frame|;
    var bs := frame + [b] + ReadBytes(rest, MaxFrameSize - pos - 1);
    var size' := if pos == HeaderSize then FrameSize(b) else size;
    var ftype' := if pos == HeaderSize then b else ftype;
    if pos == size' - 1 {
      assert ReceiveFrom(s, q, frame, size, ftype) == ParseFrameType(s, ftype', frame + [b]);
      VerdictCompleteAt(s, frame + [b], ReadBytes(rest, MaxFrameSize - pos - 1));
    } else if pos + 1 < MaxFrameSize {
      LoopInvariantStep(frame, size, ftype, b, size', ftype');
      ReceiveNextIsVerdict(s, q, frame, size, ftype, b, rest, size', ftype');
    } else {
      assert ReceiveFrom(s, q, frame, size, ftype) == Reject(s);
      VerdictShort(s, bs);
    }
  }

  /** The loop moving on to the next position. */
  lemma {:induction false} ReceiveNextIsVerdict(s: ClimateState, q: seq<Pulse>, frame: seq<Byte>, size: Byte, ftype: Byte,
                                                b: Byte, rest: seq<Pulse>, size': Byte, ftype': Byte)
    requires LoopInvariant(frame, size, ftype)
    requires ReadByte(q) == Some((b, rest))
    requires |frame| < HeaderSize ==> b == FrameHeader[|frame|]
    requires size' == (if |frame| == HeaderSize then FrameSize(b) else size)
    requires ftype' == (if |frame| == HeaderSize then b else ftype)
    requires |frame| != size' - 1 && |frame| + 1 < MaxFrameSize
    requires LoopInvariant(frame + [b], size', ftype')
    ensures ReceiveFrom(s, q, frame, size, ftype) == Verdict(s, frame + [b] + ReadBytes(rest, MaxFrameSize - |frame| - 1))
    decreases MaxFrameSize - |frame|, 0
  {
    ReceiveFromNext(s, q, frame, size, ftype, b, rest, size', ftype');
    ReceiveFromIsVerdict(s, rest, frame + [b], size', ftype');
  }

  /** The byte loop, having read `b` and not finished, goes on from the
      next position with the remaining pairs. */
  lemma ReceiveFromNext(s: ClimateState, q: seq<Pulse>, frame: seq<Byte>, size: Byte, ftype: Byte,
                        b: Byte, rest: seq<Pulse>, size': Byte, ftype': Byte)
    requires LoopInvariant(frame, size, ftype)
    requires ReadByte(q) == Some((b, rest))
    requires |frame| < HeaderSize ==> b == FrameHeader[|frame|]
    requires size' == (if |frame| == HeaderSize then FrameSize(b) else size)
    requires ftype' == (if |frame| == HeaderSize then b else ftype)
    requires |frame| != size' - 1 && |frame| + 1 < MaxFrameSize
    requires LoopInvariant(frame + [b], size', ftype')
    ensures ReceiveFrom(s, q, frame, size, ftype) == ReceiveFrom(s, rest, frame + [b], size', ftype')
  {
  }

  /** The loop invariant holds again at the next position. */
  lemma LoopInvariantStep(frame: seq<Byte>, size: Byte, ftype: Byte, b: Byte, size': Byte, ftype': Byte)
    requires LoopInvariant(frame, size, ftype)
    requires |frame| < HeaderSize ==> b == FrameHeader[|frame|]
    requires size' == (if |frame| == HeaderSize then FrameSize(b) else size)
    requires ftype' == (if |frame| == HeaderSize then b else ftype)
    requires |frame| != size' - 1 && |frame| + 1 < MaxFrameSize
    ensures LoopInvariant(frame + [b], size', ftype')
  {
    var pos := |frame|;
    if pos < HeaderSize {
      assert frame + [b] == FrameHeader[..pos + 1];
    } else {
      assert (frame + [b])[..HeaderSize] == frame[..HeaderSize];
      assert (frame + [b])[HeaderSize] == ftype';
    }
  }

  /** A complete frame followed by further bytes gets the frame's verdict. */
  lemma VerdictCompleteAt(s: ClimateState, frame: seq<Byte>, more: seq<Byte>)
    requires HeaderSize < |frame| && |frame + more| <= MaxFrameSize && frame[..HeaderSize] == FrameHeader
    requires FrameSize(frame[HeaderSize]) == |frame|
    ensures Verdict(s, frame + more) == ParseFrameType(s, frame[HeaderSize], frame)
  {
    var bs := frame + more;
    assert bs[..HeaderSize] == FrameHeader;
    assert bs[HeaderSize] == frame[HeaderSize];
    assert bs[..|frame|] == frame;
    VerdictComplete(s, bs);
  }

  /** Bytes that stop before their frame is complete are refused. */
  lemma VerdictShort(s: ClimateState, bs: seq<Byte>)
    requires |bs| <= MaxFrameSize
    requires |bs| <= HeaderSize || FrameSize(bs[HeaderSize]) > |bs|
    ensures Verdict(s, bs) == Reject(s)
  {
  }

  /** A wrong header byte is refused. */
  lemma VerdictBadHeader(s: ClimateState, bs: seq<Byte>, pos: nat)
    requires |bs| <= MaxFrameSize && pos < HeaderSize && pos < |bs| && bs[pos] != FrameHeader[pos]
    ensures Verdict(s, bs) == Reject(s)
  {
    if |bs| > HeaderSize {
      assert bs[..HeaderSize][pos] != FrameHeader[pos];
    }
  }

  /** With a good header and enough bytes, the verdict is the frame's. */
  lemma VerdictComplete(s: ClimateState, bs: seq<Byte>)
    requires HeaderSize < |bs| <= MaxFrameSize && bs[..HeaderSize] == FrameHeader
    requires FrameSize(bs[HeaderSize]) <= |bs|
    ensures Verdict(s, bs) == ParseFrameType(s, bs[HeaderSize], bs[..FrameSize(bs[HeaderSize])])
  {
  }

  /** `on_receive` accepts exactly when the first pair is the leader and
      the bytes after it pass the verdict, which then also gives the state. */
  lemma ReceiveIsVerdict(s: ClimateState, p: seq<Pulse>)
    ensures |p| > 0 && p[0] == Leader ==> Receive(s, p) == Verdict(s, ReadBytes(p[1..], MaxFrameSize))
    ensures !(|p| > 0 && p[0] == Leader) ==> Receive(s, p) == Reject(s)
  {
    if |p| > 0 && p[0] == Leader {
      var q := p[1..];
      assert Receive(s, p) == ReceiveFrom(s, q, [], MaxFrameSize, 0x00);
      ReceiveFromIsVerdict(s, q, [], MaxFrameSize, 0x00);
      assert [] + ReadBytes(q, MaxFrameSize) == ReadBytes(q, MaxFrameSize);
    }
  }
}
