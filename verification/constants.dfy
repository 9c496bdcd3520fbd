/** The wire constants of the Daikin ARC-series infrared protocol, as
    declared in daikin.h: mode and fan codes, pulse timings, frame sizes,
    frame-type bytes, byte offsets and the per-model temperature ranges. */
module DaikinConstants {
  import opened Bytes

  /** The remote-controller revision, fixed when the component is set up. */
  datatype Model = ARC470A1 | ARC432A14

  // Temperature ranges, whole degrees Celsius
  const Arc470a1TempMax: int := 30
  const Arc470a1TempMin: int := 10
  const Arc432a14TempMax: int := 32
  const Arc432a14TempMin: int := 18

  // Operation-mode codes (high nibble of the mode byte) and the ON flag
  const ModeAuto: Byte := 0x00
  const ModeCool: Byte := 0x30
  const ModeHeat: Byte := 0x40
  const ModeDry: Byte := 0x20
  const ModeFan: Byte := 0x60
  const ModeOff: Byte := 0x00
  const ModeOn: Byte := 0x01

  /** The five codes that are ORed with the ON flag. */
  const ModeCodes: seq<Byte> := [ModeAuto, ModeCool, ModeHeat, ModeDry, ModeFan]

  // Fan-speed codes (high nibble of the fan byte)
  const FanSpeedAuto: Byte := 0xA0
  const FanSpeedSilent: Byte := 0xB0
  const FanSpeed1: Byte := 0x30
  const FanSpeed2: Byte := 0x40
  const FanSpeed3: Byte := 0x50
  const FanSpeed4: Byte := 0x60
  const FanSpeed5: Byte := 0x70

  const FanCodes: seq<Byte> := [FanSpeedAuto, FanSpeedSilent, FanSpeed1, FanSpeed2, FanSpeed3, FanSpeed4, FanSpeed5]

  // Infrared timing, microseconds
  const HeaderMark: nat := 3360
  const HeaderSpace: nat := 1760
  const BitMark: nat := 520
  const OneSpace: nat := 1370
  const ZeroSpace: nat := 360
  const MessageSpace: nat := 32300

  // Frame sizes and offsets within the 35-byte message
  const HeaderSize: nat := 4
  const MaxFrameSize: nat := 19
  const FirstFrameSize: nat := HeaderSize + 4
  const TimeFrameOffset: nat := 8
  const TimeFrameSize: nat := HeaderSize + 4
  const StateFrameOffset: nat := 16
  const StateFrameSize: nat := HeaderSize + 15
  const MessageSize: nat := StateFrameOffset + StateFrameSize

  // Frame-type bytes (byte 4 of every frame)
  const FirstFrameHeader: Byte := 0xC5
  const TimeFrameHeader: Byte := 0x42
  const StateFrameHeader: Byte := 0x00

  // Byte offsets
  const HeaderId: nat := 3
  const MessageId: nat := 4
  const ComfortId: nat := 6
  const SwingVerticalId: nat := StateFrameOffset + 8
  const SwingHorizontalId: nat := StateFrameOffset + 9
  const BoostId: nat := StateFrameOffset + 13
  const EcoId: nat := StateFrameOffset + 16

  /** Every frame type fits the receive buffer, and the three frames tile
      the 35-byte message. */
  lemma FrameSizesFitBuffer()
    ensures FirstFrameSize == 8 && TimeFrameSize == 8 && StateFrameSize == 19
    ensures FirstFrameSize <= MaxFrameSize && TimeFrameSize <= MaxFrameSize
    ensures StateFrameSize == MaxFrameSize
    ensures TimeFrameOffset == FirstFrameSize
    ensures StateFrameOffset == TimeFrameOffset + TimeFrameSize
    ensures MessageSize == 35
  {
  }

  /** The frame-type bytes are pairwise distinct, so the type of a frame is
      a function of its byte 4. */
  lemma FrameTypesDistinct()
    ensures FirstFrameHeader != TimeFrameHeader
    ensures FirstFrameHeader != StateFrameHeader
    ensures TimeFrameHeader != StateFrameHeader
  {
  }

  /** The flag bytes lie inside the frame they belong to, before that
      frame's checksum byte, so the checksum covers them. */
  lemma OffsetsInsideFrames()
    ensures ComfortId < FirstFrameSize - 1
    ensures HeaderId < FirstFrameSize - 1 && MessageId < FirstFrameSize - 1
    ensures StateFrameOffset <= SwingVerticalId && SwingHorizontalId < BoostId < EcoId
    ensures EcoId < StateFrameOffset + StateFrameSize - 1
    ensures SwingVerticalId == 24 && SwingHorizontalId == 25 && BoostId == 29 && EcoId == 32
  {
  }

  /** A code with an empty low nibble keeps it when the ON flag is ORed in,
      and masking the result with 0xF0 gives the code back. */
  lemma OnFlagSeparable(c: Byte)
    requires c % 16 == 0
    ensures LowNibble(c) == 0
    ensures OrBit0(c) == c + ModeOn
    ensures HighNibble(OrBit0(c)) == c
  {
  }

  /** The mode codes have distinct high nibbles and an empty low nibble:
      ORing in the ON flag is injective and masking with 0xF0 recovers the code. */
  lemma ModeCodesSeparable()
    ensures forall i :: 0 <= i < |ModeCodes| ==> LowNibble(ModeCodes[i]) == 0
    ensures forall i :: 0 <= i < |ModeCodes| ==> OrBit0(ModeCodes[i]) == ModeCodes[i] + ModeOn
    ensures forall i :: 0 <= i < |ModeCodes| ==> HighNibble(OrBit0(ModeCodes[i])) == ModeCodes[i]
    ensures forall i, j :: 0 <= i < j < |ModeCodes| ==> OrBit0(ModeCodes[i]) != OrBit0(ModeCodes[j])
  {
    forall i | 0 <= i < |ModeCodes|
      ensures LowNibble(ModeCodes[i]) == 0
      ensures OrBit0(ModeCodes[i]) == ModeCodes[i] + ModeOn
      ensures HighNibble(OrBit0(ModeCodes[i])) == ModeCodes[i]
    {
      OnFlagSeparable(ModeCodes[i]);
    }
  }

  /** The fan codes have distinct high nibbles and an empty low nibble, so
      the swing nibbles never overlap fan bits. */
  lemma FanCodesSeparable()
    ensures forall i :: 0 <= i < |FanCodes| ==> LowNibble(FanCodes[i]) == 0
    ensures forall i, j :: 0 <= i < j < |FanCodes| ==> HighNibble(FanCodes[i]) != HighNibble(FanCodes[j])
  {
  }

  /** Both ranges are non-empty, and twice the maximum still fits a byte. */
  lemma ModelRangesFit()
    ensures Arc470a1TempMin < Arc470a1TempMax && 2 * Arc470a1TempMax < 256 && Arc470a1TempMin >= 0
    ensures Arc432a14TempMin < Arc432a14TempMax && 2 * Arc432a14TempMax < 256 && Arc432a14TempMin >= 0
    ensures 2 * Arc470a1TempMax <= 64 && 2 * Arc432a14TempMax <= 64
  {
  }

  /** The two space durations differ, so a bit is a one or a zero, never both. */
  lemma BitSpacesDistinct()
    ensures OneSpace != ZeroSpace
    ensures HeaderMark != BitMark
  {
  }
}
