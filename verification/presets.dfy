/** Preset handling outside the codec proper: `allow_preset`, the preset
    guard at the top of `control`, and the body of the boost auto-clear
    callback that `preset_boost_timeout_` schedules. */
module Presets {
  import opened Optional
  import opened Climate

  /** `allow_preset`: whether a requested preset may be applied while the
      entity is in `mode`; `boostEnabled` is the boost option of the
      component's configuration. */
  function AllowPreset(p: Preset, mode: Mode, boostEnabled: bool): (ok: bool)
    ensures p == PresetComfort ==> !ok
    ensures p == PresetEco && mode == FanOnly ==> !ok
  {
    match p
    case PresetEco => mode != FanOnly
    case PresetNone => true
    case PresetBoost => boostEnabled
    case _ => false
  }

  /** The presets `allow_preset` accepts, listed: None always, Eco outside
      fan-only mode, Boost when configured; never anything else. */
  lemma AllowPresetExactly(p: Preset, mode: Mode, boostEnabled: bool)
    ensures AllowPreset(p, mode, boostEnabled) <==>
              p == PresetNone || (p == PresetEco && mode != FanOnly) || (p == PresetBoost && boostEnabled)
  {
  }

  /** The preset guard of `control`: a requested preset is stored when it
      is present, allowed, and differs from the current one (or there is
      none); otherwise the state is left alone. Only the preset changes. */
  function ControlPreset(s: ClimateState, requested: Option<Preset>, boostEnabled: bool): (r: ClimateState)
    ensures r.(preset := s.preset) == s
    ensures r.preset == s.preset || r.preset == requested
    ensures r.preset != s.preset ==> requested.Some? && AllowPreset(requested.value, s.mode, boostEnabled)
  {
    if requested.Some? && AllowPreset(requested.value, s.mode, boostEnabled)
       && (s.preset.None? || s.preset.value != requested.value)
    then s.(preset := requested)
    else s
  }

  /** The "differs from the current one" test changes nothing: the guard
      stores exactly the allowed requests. */
  lemma ControlPresetAllowed(s: ClimateState, requested: Option<Preset>, boostEnabled: bool)
    ensures ControlPreset(s, requested, boostEnabled).preset ==
              if requested.Some? && AllowPreset(requested.value, s.mode, boostEnabled) then requested else s.preset
  {
  }

  /** Applying the same request twice is applying it once. */
  lemma ControlPresetIdempotent(s: ClimateState, requested: Option<Preset>, boostEnabled: bool)
    ensures ControlPreset(ControlPreset(s, requested, boostEnabled), requested, boostEnabled)
            == ControlPreset(s, requested, boostEnabled)
  {
    ControlPresetAllowed(s, requested, boostEnabled);
  }

  /** The boost auto-clear callback, ten minutes after it was armed: Boost
      falls back to None (any other preset stays), and the state is
      published whatever the preset was, since only the assignment is
      guarded by the `if`. */
  function BoostTimeoutFires(s: ClimateState): (r: ClimateState)
    ensures r.preset == (if s.preset == Some(PresetBoost) then Some(PresetNone) else s.preset)
    ensures r.publishes == s.publishes + 1
    ensures !r.boostTimerArmed
    ensures r.(preset := s.preset, publishes := s.publishes, boostTimerArmed := s.boostTimerArmed) == s
  {
    var cleared := if s.preset == Some(PresetBoost) then s.(preset := Some(PresetNone)) else s;
    Publish(cleared).(boostTimerArmed := false)
  }
}
