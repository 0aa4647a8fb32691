/** Fan modes and the ways a fan operation can fail (crates/fw-helper-core/src/fan.rs). */
module FanErrors {
  import opened Prelude

  datatype FanMode = Auto | Manual | Other(raw: nat)

  const PWM_MANUAL: nat := 1
  const PWM_AUTO: nat := 2

  function FromRaw(raw: nat): FanMode {
    if raw == PWM_MANUAL then Manual else if raw == PWM_AUTO then Auto else Other(raw)
  }

  datatype FanError =
    | Unsupported
    | DutyCannotTurnFan(duty: Duty)
    | NotUnderManualControl(mode: FanMode)
    | Io
    | ModeNotApplied(observed: FanMode)
    | DutyNotApplied(requested: Duty, reported: Duty)
    | NotReleased(observed: FanMode)
    | EcFailed
    | EcNotReleased
}
