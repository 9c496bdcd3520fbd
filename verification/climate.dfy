/** The climate entity's state as the codec reads and writes it: the
    attributes the transmitter encodes and the receiver overwrites, the
    pending boost auto-clear, and how many times the state was published. */
module Climate {
  import opened Optional

  datatype Mode = Off | Cool | Dry | Heat | HeatCool | FanOnly

  datatype FanMode = FanAuto | FanLow | FanMedium | FanHigh | FanFocus

  datatype SwingMode = SwingOff | SwingVertical | SwingHorizontal | SwingBoth

  datatype Preset = PresetNone | PresetComfort | PresetEco | PresetBoost

  /** `preset` is optional in the firmware: it may never have been set.
      `boostTimerArmed` records that the ten-minute auto-clear is pending;
      re-arming replaces the pending callback, so a flag suffices. */
  datatype ClimateState = ClimateState(
    mode: Mode,
    target: int,
    fan: FanMode,
    swing: SwingMode,
    preset: Option<Preset>,
    boostTimerArmed: bool,
    publishes: nat)

  predicate HasVertical(sw: SwingMode) {
    sw == SwingVertical || sw == SwingBoth
  }

  predicate HasHorizontal(sw: SwingMode) {
    sw == SwingHorizontal || sw == SwingBoth
  }

  /** The swing narrowing the Comfort preset imposes: the vertical
      component is dropped and the horizontal one kept. */
  function ComfortSwing(sw: SwingMode): (r: SwingMode)
    ensures !HasVertical(r)
    ensures HasHorizontal(r) == HasHorizontal(sw)
  {
    match sw
    case SwingBoth => SwingHorizontal
    case SwingVertical => SwingOff
    case _ => sw
  }

  /** Demoting twice is demoting once. */
  lemma ComfortSwingIdempotent(sw: SwingMode)
    ensures ComfortSwing(ComfortSwing(sw)) == ComfortSwing(sw)
  {
  }

  /** The entity publishes its state: only the publish count moves. */
  function Publish(s: ClimateState): (r: ClimateState)
    ensures r.publishes == s.publishes + 1
    ensures r.(publishes := s.publishes) == s
  {
    s.(publishes := s.publishes + 1)
  }
}
