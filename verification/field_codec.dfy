/** The field codecs of daikin.cpp: operation mode, target temperature and
    the fan/swing word, each mapped to its bytes by the transmitter and
    back by the state-frame parser. The decoders return `None` where the
    parser leaves the attribute as it was. */
module FieldCodec {
  import opened Optional
  import opened Bytes
  import opened Climate
  import opened DaikinConstants

  /* ---------- Operation mode ---------- */

  /** The mode byte: 0x00 when off, otherwise the ON flag ORed with the
      mode's code. */
  function EncodeMode(m: Mode): (b: Byte)
    ensures b == ModeOff <==> m == Off
    ensures m != Off ==> LowNibble(b) == ModeOn
    ensures DecodeMode(b) == Some(m)
  {
    match m
    case Cool => OrBit0(ModeCool)
    case Dry => OrBit0(ModeDry)
    case Heat => OrBit0(ModeHeat)
    case HeatCool => OrBit0(ModeAuto)
    case FanOnly => OrBit0(ModeFan)
    case Off => ModeOff
  }

  /** The mode a received mode byte selects: Off when the ON flag (bit 0)
      is clear, otherwise the mode whose code is the high nibble; `None`
      for a high nibble that is no mode code. */
  function DecodeMode(b: Byte): (r: Option<Mode>)
    ensures b % 2 == 0 ==> r == Some(Off)
    ensures r.None? <==> b % 2 == 1 && HighNibble(b) !in {ModeCool, ModeDry, ModeHeat, ModeAuto, ModeFan}
  {
    if b % 2 == 1 then
      var code := HighNibble(b);
      if code == ModeCool then Some(Cool)
      else if code == ModeDry then Some(Dry)
      else if code == ModeHeat then Some(Heat)
      else if code == ModeAuto then Some(HeatCool)
      else if code == ModeFan then Some(FanOnly)
      else None
    else
      Some(Off)
  }

  /** Decoding then re-encoding keeps exactly the ON flag and the mode
      nibble of a byte that names a mode; bits 1 to 3 are ignored. */
  lemma DecodeModeThenEncode(b: Byte)
    requires DecodeMode(b).Some? && DecodeMode(b).value != Off
    ensures EncodeMode(DecodeMode(b).value) == HighNibble(b) + ModeOn
  {
  }

  /* ---------- Temperature ---------- */

  function TemperatureMin(model: Model): (t: int)
    ensures t == (if model == ARC470A1 then Arc470a1TempMin else Arc432a14TempMin)
    ensures 0 <= t < TemperatureMax(model)
  {
    if model == ARC470A1 then Arc470a1TempMin else Arc432a14TempMin
  }

  function TemperatureMax(model: Model): (t: int)
    ensures t == (if model == ARC470A1 then Arc470a1TempMax else Arc432a14TempMax)
    ensures 2 * t <= 64
  {
    if model == ARC470A1 then Arc470a1TempMax else Arc432a14TempMax
  }

  /** `v` limited to the range [lo, hi]. */
  function Clamp(v: int, lo: int, hi: int): (r: int)
    requires lo <= hi
    ensures lo <= r <= hi
    ensures lo <= v <= hi ==> r == v
    ensures v < lo ==> r == lo
    ensures v > hi ==> r == hi
  {
    if v < lo then lo else if v > hi then hi else v
  }

  /** Modes whose temperature byte carries the target rather than a sentinel. */
  predicate CarriesTarget(m: Mode) {
    m != FanOnly && m != HeatCool && m != Dry
  }

  /** The target the transmitter sends: clamped to the model's range. */
  function SentTarget(target: int, model: Model): (t: int)
    ensures TemperatureMin(model) <= t <= TemperatureMax(model)
  {
    Clamp(target, TemperatureMin(model), TemperatureMax(model))
  }

  /** The temperature byte: a sentinel in fan-only, auto and dry modes,
      otherwise the clamped target in half degrees (`t << 1`). */
  function EncodeTemperature(m: Mode, target: int, model: Model): (b: Byte)
    ensures m == FanOnly ==> b == 0x32
    ensures (m == HeatCool || m == Dry) ==> b == 0xC0 && DecodeTemperature(b).None?
    ensures CarriesTarget(m) ==> b % 2 == 0
    ensures CarriesTarget(m) && SentTarget(target, model) == 32 ==> b == 0x40
    ensures CarriesTarget(m) ==>
              var t := SentTarget(target, model);
              DecodeTemperature(b) == if t < 32 then Some(t) else None
  {
    match m
    case FanOnly => 0x32
    case HeatCool => 0xC0
    case Dry => 0xC0
    case _ => 2 * SentTarget(target, model)
  }

  /** The target a received temperature byte carries, in whole degrees
      (`b >> 1`); `None` when either of the two top bits is set
      (`b & 0xC0`, see `TopBitsClear`). */
  function DecodeTemperature(b: Byte): (r: Option<int>)
    ensures r.Some? <==> b < 64
    ensures r.Some? ==> 0 <= r.value < 32 && 2 * r.value == b - b % 2
  {
    if b < 64 then Some(b / 2) else None
  }

  /** The fan-only sentinel reads back as 25 degrees, and 32 degrees, which
      the ARC432A14 range admits, is sent as 0x40 and ignored on receipt. */
  lemma TemperatureSentinelsOnReceipt()
    ensures DecodeTemperature(0x32) == Some(25)
    ensures DecodeTemperature(0xC0).None?
    ensures EncodeTemperature(Cool, 32, ARC432A14) == 0x40
    ensures DecodeTemperature(0x40).None?
  {
  }

  /* ---------- Fan speed and swing ---------- */

  /** The high byte of the fan word's speed part (`code << 8`): every
      speed but Focus puts its code here. */
  function FanHighCode(fan: FanMode): (c: Byte)
    ensures LowNibble(c) == 0
  {
    match fan
    case FanLow => FanSpeed1
    case FanMedium => FanSpeed3
    case FanHigh => FanSpeed5
    case FanFocus => 0x00
    case FanAuto => FanSpeedAuto
  }

  /** The low byte of the fan word's speed part: the silent code for Focus. */
  function FanLowCode(fan: FanMode): (c: Byte)
    ensures LowNibble(c) == 0
  {
    if fan == FanFocus then FanSpeedSilent else 0x00
  }

  /** 0x0F when the swing has a vertical component (bits 8..11 of the word). */
  function VerticalBits(sw: SwingMode): Byte {
    if HasVertical(sw) then 0x0F else 0x00
  }

  /** 0x0F when the swing has a horizontal component (bits 0..3 of the word). */
  function HorizontalBits(sw: SwingMode): Byte {
    if HasHorizontal(sw) then 0x0F else 0x00
  }

  /** The bits `fan_speed_` ORs into the word for each swing mode. */
  function SwingMask(sw: SwingMode): Word {
    match sw
    case SwingOff => 0x0000
    case SwingVertical => 0x0F00
    case SwingHorizontal => 0x000F
    case SwingBoth => 0x0F0F
  }

  /** The 16-bit fan word as its two bytes: `high` goes to byte 24
      (`word >> 8`), `low` to byte 25 (`word & 0xff`). */
  datatype FanWord = FanWord(high: Byte, low: Byte) {
    function Value(): Word {
      high * 256 + low
    }
  }

  /** Adding a low nibble to a byte whose low nibble is clear sets exactly
      that nibble: there it is the same as ORing. */
  lemma NibbleAdd(code: Byte, low: int)
    requires LowNibble(code) == 0 && 0 <= low < 16
    ensures code + low < 256
    ensures LowNibble(code + low) == low
    ensures HighNibble(code + low) == code
  {
    DivAdd(16, code / 16, low);
  }

  /** The fan word: the speed code `<< 8` (Focus: the silent code, unshifted)
      ORed with 0x0F00 for vertical swing and 0x000F for horizontal swing.
      The speed part never uses the swing nibbles, so each OR adds. */
  function EncodeFanSwing(fan: FanMode, sw: SwingMode): (w: FanWord)
    ensures w.Value() == 256 * FanHighCode(fan) + FanLowCode(fan) + SwingMask(sw)
  {
    FanWord(FanHighCode(fan) + VerticalBits(sw), FanLowCode(fan) + HorizontalBits(sw))
  }

  /** Where the fan word's parts land: the speed codes in the high
      nibbles, the swing marks in the low nibbles, one byte per direction. */
  lemma FanSwingNibbles(fan: FanMode, sw: SwingMode)
    ensures HasVertical(sw) <==> LowNibble(EncodeFanSwing(fan, sw).high) != 0
    ensures HasHorizontal(sw) <==> LowNibble(EncodeFanSwing(fan, sw).low) != 0
    ensures HighNibble(EncodeFanSwing(fan, sw).high) == FanHighCode(fan)
    ensures HighNibble(EncodeFanSwing(fan, sw).low) == FanLowCode(fan)
  {
    WordNibbles(FanHighCode(fan), VerticalBits(sw), HasVertical(sw));
    WordNibbles(FanLowCode(fan), HorizontalBits(sw), HasHorizontal(sw));
  }

  /** One byte of the fan word: a code with a clear low nibble plus the
      swing bits of one direction. */
  lemma WordNibbles(code: Byte, bits: Byte, on: bool)
    requires LowNibble(code) == 0 && bits == if on then 0x0F else 0x00
    ensures code + bits < 256
    ensures on <==> LowNibble(code + bits) != 0
    ensures HighNibble(code + bits) == code
  {
    NibbleAdd(code, bits);
  }

  /** The state-frame parser recovers the swing from the fan word. */
  lemma SwingRoundTrip(fan: FanMode, sw: SwingMode)
    ensures DecodeSwing(EncodeFanSwing(fan, sw).high, EncodeFanSwing(fan, sw).low) == sw
  {
    FanSwingNibbles(fan, sw);
    DecodeSwingNibbles(EncodeFanSwing(fan, sw).high, EncodeFanSwing(fan, sw).low, sw);
  }

  /** Swing nibbles that follow the components of `sw` decode to `sw`. */
  lemma DecodeSwingNibbles(fanByte: Byte, swingByte: Byte, sw: SwingMode)
    requires HasVertical(sw) <==> LowNibble(fanByte) != 0
    requires HasHorizontal(sw) <==> LowNibble(swingByte) != 0
    ensures DecodeSwing(fanByte, swingByte) == sw
  {
  }

  /** The state-frame parser recovers the fan speed from the fan word,
      except Focus, whose high byte carries no speed code. */
  lemma FanRoundTrip(fan: FanMode, sw: SwingMode)
    ensures DecodeFan(EncodeFanSwing(fan, sw).high) == if fan == FanFocus then None else Some(fan)
  {
    FanSwingNibbles(fan, sw);
    DecodeSpeedCode(EncodeFanSwing(fan, sw).high, fan);
  }

  /** A byte whose high nibble is the speed code of `fan` decodes to `fan`. */
  lemma DecodeSpeedCode(b: Byte, fan: FanMode)
    requires HighNibble(b) == FanHighCode(fan)
    ensures DecodeFan(b) == if fan == FanFocus then None else Some(fan)
  {
  }

  /** The speed part of the word: Low, Medium, High and Auto give
      0x3000, 0x5000, 0x7000 and 0xA000; Focus gives 0x00B0. */
  lemma SpeedWordValues(fan: FanMode)
    ensures EncodeFanSwing(fan, SwingOff).Value() ==
              match fan
              case FanLow => 0x3000
              case FanMedium => 0x5000
              case FanHigh => 0x7000
              case FanAuto => 0xA000
              case FanFocus => 0x00B0
  {
  }

  /** The swing part of the word: vertical ORs in 0x0F00, horizontal
      0x000F and both 0x0F0F, on top of the speed part. */
  lemma SwingWordBits(fan: FanMode, sw: SwingMode)
    ensures EncodeFanSwing(fan, sw).Value() == EncodeFanSwing(fan, SwingOff).Value() +
              match sw
              case SwingOff => 0x0000
              case SwingVertical => 0x0F00
              case SwingHorizontal => 0x000F
              case SwingBoth => 0x0F0F
  {
  }

  /** The swing a received fan byte and swing byte select: vertical when
      the fan byte's low nibble is non-zero, horizontal when the swing
      byte's low nibble is. */
  function DecodeSwing(fanByte: Byte, swingByte: Byte): (r: SwingMode)
    ensures HasVertical(r) <==> LowNibble(fanByte) != 0
    ensures HasHorizontal(r) <==> LowNibble(swingByte) != 0
  {
    if LowNibble(fanByte) != 0 && LowNibble(swingByte) != 0 then SwingBoth
    else if LowNibble(fanByte) != 0 then SwingVertical
    else if LowNibble(swingByte) != 0 then SwingHorizontal
    else SwingOff
  }

  /** The high nibbles the receiver knows as fan speeds. */
  predicate IsFanCode(code: Byte) {
    code == FanSpeed1 || code == FanSpeed2 || code == FanSpeedSilent || code == FanSpeed3
    || code == FanSpeed4 || code == FanSpeed5 || code == FanSpeedAuto
  }

  /** The fan speed a received fan byte selects by its high nibble; `None`
      for a nibble that is no fan code. Focus is never the answer. */
  function DecodeFan(b: Byte): (r: Option<FanMode>)
    ensures r != Some(FanFocus)
    ensures r.None? <==> !IsFanCode(HighNibble(b))
    ensures r == Some(FanLow) <==> HighNibble(b) in [FanSpeed1, FanSpeed2, FanSpeedSilent]
    ensures r == Some(FanMedium) <==> HighNibble(b) == FanSpeed3
    ensures r == Some(FanHigh) <==> HighNibble(b) in [FanSpeed4, FanSpeed5]
    ensures r == Some(FanAuto) <==> HighNibble(b) == FanSpeedAuto
  {
    var code := HighNibble(b);
    if code == FanSpeed1 || code == FanSpeed2 || code == FanSpeedSilent then Some(FanLow)
    else if code == FanSpeed3 then Some(FanMedium)
    else if code == FanSpeed4 || code == FanSpeed5 then Some(FanHigh)
    else if code == FanSpeedAuto then Some(FanAuto)
    else None
  }

  /** The decoder collapses several speed codes: the second speed and the
      silent code read as Low, the fourth as High. */
  lemma DecodeFanCollapses()
    ensures DecodeFan(FanSpeed2) == DecodeFan(FanSpeedSilent) == DecodeFan(FanSpeed1) == Some(FanLow)
    ensures DecodeFan(FanSpeed4) == DecodeFan(FanSpeed5) == Some(FanHigh)
  {
  }

  /** The swing nibble of a fan byte never changes the speed read from it:
      a remote's 0x4F reads as Low just as 0x40 does. */
  lemma DecodeFanIgnoresSwingNibble(b: Byte)
    ensures DecodeFan(b) == DecodeFan(HighNibble(b))
    ensures DecodeFan(0x4F) == Some(FanLow) && DecodeFan(0x6F) == Some(FanHigh) && DecodeFan(0xBF) == Some(FanLow)
  {
    assert HighNibble(HighNibble(b)) == HighNibble(b);
  }
}
