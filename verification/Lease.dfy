/** The decisions of the fan lease (crates/fw-helperd/src/fan.rs, `FanLease`), as functions
    on its state. `LeaseObject.dfy` is the object that carries them out.

    Each public method is one atomic step. The hardware behind the lease answers from a
    script, so a result that holds for every world holds for every pattern of failures.
 */
module Lease {
  import opened Prelude
  import opened FanErrors
  import opened Board
  import opened FloorModel
  import opened Floor
  import opened ThermalInputs
  import EcFan
  import SysfsFan
  import Curve
  import Engine

  /** The interface that drives this board's fan: sysfs first, then the EC, else none. */
  datatype Fan = NoFan | OnSysfs(hw: SysfsFan.HwState) | OnEc(ec: EcFan.EcState)

  /** How whatever hardware there is behaves. */
  datatype World = World(hw: SysfsFan.HwScript, ec: EcFan.EcScript)

  datatype LeaseState = LeaseState(
    profile: Option<BoardProfile>,
    fan: Fan,
    held: bool,
    requested: Duty,
    applied: Duty,
    restorePending: bool,
    restoreDuty: Duty,
    curve: Option<Engine.EngineState>,
    floor: FloorState)

  datatype LeaseError = NoTemperature | AboveCeiling | BatteryTooHot | UnmeasuredBoard | FanFailed(error: FanError)

  /** What happened when a duty was requested. */
  datatype Applied = Applied(requested: Duty, target: Duty, settled: Duty, floor: Duty)

  /** What a tick of enforcement did, when it did anything. */
  datatype Enforced =
    | Corrected(from: Duty, to: Duty, floor: Duty, celsius: real)
    | ReleasedNoSensor(released: bool)
    | ReleasedBatteryHot(released: bool)
    | ReleasedTooHot(released: bool)
    | Failed(error: LeaseError)

  /** Every state the program can be in carries a validated curve and non-empty tables. */
  ghost predicate Valid(s: LeaseState) {
    && (s.profile.Some? ==> |s.profile.value.dutyRpm| > 0 && |s.profile.value.firmwareCurve| > 0)
    && (s.curve.Some? ==> Curve.Valid(s.curve.value.curve))
  }

  /** What no fan operation changes: the board, what was learned, and which interface the
      fan is on. */
  ghost predicate SameBoard(s: LeaseState, s': LeaseState) {
    && s'.profile == s.profile && s'.floor == s.floor && SameInterface(s.fan, s'.fan)
    && (Valid(s) ==> Valid(s'))
  }

  predicate SameInterface(fan: Fan, fan': Fan) {
    (fan.NoFan? <==> fan'.NoFan?) && (fan.OnEc? <==> fan'.OnEc?)
  }

  /** Whose tables the floor uses. An unmeasured board's floor is never consulted. */
  function FloorProfile(profile: Option<BoardProfile>): BoardProfile {
    if profile.Some? then profile.value else INTEL_CORE_ULTRA_3
  }

  function LeaseFloor(s: LeaseState, celsius: real): Duty
    requires Valid(s)
  {
    FloorDuty(FloorProfile(s.profile), s.floor.table, Finite(celsius))
  }

  /** The floor that bounds a request: firmware's or the battery's, whichever is louder. */
  function Bound(s: LeaseState, celsius: real, thermal: Thermal): Duty
    requires Valid(s)
  {
    Max(LeaseFloor(s, celsius), thermal.BatteryFloor())
  }

  function NewLease(profile: Option<BoardProfile>, fan: Fan): LeaseState {
    LeaseState(profile, fan, false, 0, 0, false, 0, None, FRESH)
  }

  // ------------------------------------------------------------- the backend

  function AfterMode(w: World, fan: Fan): (r: (Fan, Result<FanMode, FanError>))
    ensures SameInterface(fan, r.0)
  {
    match fan
    case NoFan => (fan, Err(Unsupported))
    case OnEc(ec) => (fan, Ok(if ec.manual then Manual else Auto))
    case OnSysfs(hw) =>
      var (hw', mode) := SysfsFan.AfterReadMode(w.hw, hw);
      (OnSysfs(hw'), if mode.Some? then Ok(mode.value) else Err(Io))
  }

  /** The duty the hardware reports, where it reports one. */
  function AfterDuty(w: World, fan: Fan): (r: (Fan, Option<Duty>))
    ensures SameInterface(fan, r.0)
  {
    match fan
    case OnSysfs(hw) => var (hw', duty) := SysfsFan.AfterReadDuty(w.hw, hw); (OnSysfs(hw'), duty)
    case _ => (fan, None)
  }

  function AfterTake(w: World, fan: Fan, duty: Duty): (r: (Fan, Result<Duty, FanError>))
    ensures SameInterface(fan, r.0)
  {
    match fan
    case NoFan => (fan, Err(Unsupported))
    case OnEc(ec) => var (ec', r) := EcFan.AfterTakeManual(w.ec, ec, duty); (OnEc(ec'), r)
    case OnSysfs(hw) => var (hw', r) := SysfsFan.AfterTakeManual(w.hw, hw, duty); (OnSysfs(hw'), r)
  }

  function AfterChange(w: World, fan: Fan, duty: Duty): (r: (Fan, Result<Duty, FanError>))
    ensures SameInterface(fan, r.0)
  {
    match fan
    case NoFan => (fan, Err(Unsupported))
    case OnEc(ec) => var (ec', r) := EcFan.AfterSetDuty(w.ec, ec, duty); (OnEc(ec'), r)
    case OnSysfs(hw) => var (hw', r) := SysfsFan.AfterSetDuty(w.hw, hw, duty); (OnSysfs(hw'), r)
  }

  function AfterFanRelease(w: World, fan: Fan): (r: (Fan, Option<FanError>))
    ensures SameInterface(fan, r.0)
  {
    match fan
    case NoFan => (fan, Some(Unsupported))
    case OnEc(ec) => var (ec', e) := EcFan.AfterRelease(w.ec, ec); (OnEc(ec'), e)
    case OnSysfs(hw) => var (hw', e) := SysfsFan.AfterRelease(w.hw, hw); (OnSysfs(hw'), e)
  }

  /** With no fan control there is nothing to restore, so nothing is wrong. */
  function AfterFanReleaseBestEffort(w: World, fan: Fan): (r: (Fan, bool))
    ensures SameInterface(fan, r.0)
  {
    match fan
    case NoFan => (fan, true)
    case OnEc(ec) => var (ec', e) := EcFan.AfterRelease(w.ec, ec); (OnEc(ec'), e.None?)
    case OnSysfs(hw) => var (hw', ok) := SysfsFan.AfterReleaseBestEffort(w.hw, hw); (OnSysfs(hw'), ok)
  }

  /** Firmware moves its own duty, and anything else on the machine may write the registers,
      between one operation and the next. The EC shows no registers to move. */
  function AfterOutside(s: LeaseState, registers: SysfsFan.Registers): (s': LeaseState)
    ensures SameBoard(s, s') && s'.(fan := s.fan) == s
    ensures !s.fan.OnSysfs? ==> s' == s
  {
    match s.fan
    case OnSysfs(hw) => s.(fan := OnSysfs(hw.(enable := registers.enable, pwm := registers.pwm)))
    case _ => s
  }

  // ----------------------------------------------------------- the operations

  /** Change the duty of a fan the hardware reports as manual; otherwise take it at `duty`. */
  function AfterWrite(w: World, s: LeaseState, duty: Duty): (r: (LeaseState, Result<Duty, LeaseError>))
    ensures SameBoard(s, r.0) && r.0.(fan := s.fan, held := s.held, applied := s.applied) == s
  {
    hide AfterMode, AfterDuty, AfterTake, AfterChange, AfterFanRelease, AfterFanReleaseBestEffort;
    if s.profile.None? then (s, Err(UnmeasuredBoard))
    else
      var (fan, mode) := AfterMode(w, s.fan);
      if mode.Err? then (s.(fan := fan), Err(FanFailed(mode.error)))
      else
        var (fan', r) := if mode.value == Manual then AfterChange(w, fan, duty) else AfterTake(w, fan, duty);
        if r.Err? then (s.(fan := fan'), Err(FanFailed(r.error)))
        else (s.(fan := fan', held := true, applied := duty), Ok(r.value))
  }

  function AfterSetDuty(w: World, s: LeaseState, duty: Duty, thermal: Thermal)
    : (r: (LeaseState, Result<Applied, LeaseError>))
    requires Valid(s)
    ensures SameBoard(s, r.0)
    ensures r.0.(fan := s.fan, held := s.held, applied := s.applied, requested := s.requested) == s
  {
    hide AfterWrite, FloorDuty;
    var celsius := thermal.Readable();
    if celsius.None? then (s, Err(NoTemperature))
    else if thermal.ceiling.ExceededBy(Finite(celsius.value)) then (s, Err(AboveCeiling))
    else if thermal.BatteryExceeded() then (s, Err(BatteryTooHot))
    else
      var floor := Bound(s, celsius.value, thermal);
      var target := Max(duty, floor);
      var (s', r) := AfterWrite(w, s, target);
      if r.Err? then (s', Err(r.error))
      else (s'.(requested := duty), Ok(Applied(duty, target, r.value, floor)))
  }

  function AfterReleaseNow(w: World, s: LeaseState): (r: (LeaseState, bool))
    ensures SameBoard(s, r.0) && !r.0.held && r.0.(fan := s.fan, held := s.held) == s
  {
    hide AfterFanReleaseBestEffort;
    var (fan, ok) := AfterFanReleaseBestEffort(w, s.fan);
    (s.(fan := fan, held := false), ok)
  }

  /** The request this tick: the curve's when one is active, else the pinned one. */
  function AfterCurveTick(s: LeaseState, celsius: real): (s': LeaseState)
    requires Valid(s)
    ensures SameBoard(s, s') && s'.fan == s.fan && s'.held == s.held && s'.applied == s.applied
    ensures s'.curve.Some? <==> s.curve.Some?
  {
    if s.curve.None? then s
    else
      var (engine, duty) := Engine.AfterTick(s.curve.value, Finite(celsius));
      s.(curve := Some(engine), requested := duty)
  }

  /** Correct a held fan toward the request and the bound at a readable temperature. */
  function AfterHold(w: World, s: LeaseState, celsius: real, thermal: Thermal): (r: (LeaseState, Option<Enforced>))
    requires Valid(s)
    ensures SameBoard(s, r.0) && r.0.(fan := s.fan, held := s.held, applied := s.applied) == s
  {
    hide AfterWrite, AfterDuty, FloorDuty;
    var floor := Bound(s, celsius, thermal);
    var target := Max(s.requested, floor);
    var (fan, current) := AfterDuty(w, s.fan);
    var s1 := s.(fan := fan);
    var decisionChanged := target != s.applied;
    var drifted := current.None? || AbsDiff(current.value, target) > SysfsFan.DUTY_TOLERANCE;
    if !decisionChanged && !drifted then (s1, None)
    else
      var (s2, r) := AfterWrite(w, s1, target);
      if r.Err? then (s2, Some(Failed(r.error)))
      else if !decisionChanged && current.None? then (s2, None)
      else (s2, Some(Corrected(if current.Some? then current.value else s.applied, r.value, floor, celsius)))
  }

  function AfterEnforce(w: World, s: LeaseState, thermal: Thermal): (r: (LeaseState, Option<Enforced>))
    requires Valid(s)
    ensures SameBoard(s, r.0)
    ensures s.curve.None? ==> r.0.curve.None? && r.0.requested == s.requested
    ensures r.0.restorePending == s.restorePending
  {
    hide AfterHold, AfterReleaseNow;
    var celsius := thermal.Readable();
    if !s.held then (s, None)
    else if celsius.None? then
      var (s', ok) := AfterReleaseNow(w, s);
      (s', Some(ReleasedNoSensor(ok)))
    else if thermal.ceiling.ExceededBy(Finite(celsius.value)) then
      var (s', ok) := AfterReleaseNow(w, s);
      (s', Some(ReleasedTooHot(ok)))
    else if thermal.BatteryExceeded() then
      var (s', ok) := AfterReleaseNow(w, s);
      (s', Some(ReleasedBatteryHot(ok)))
    else AfterHold(w, AfterCurveTick(s, celsius.value), celsius.value, thermal)
  }

  function AfterSetCurve(w: World, s: LeaseState, curve: seq<Curve.Point>, thermal: Thermal)
    : (r: (LeaseState, Result<Applied, LeaseError>))
    requires Valid(s) && Curve.Valid(curve)
    ensures SameBoard(s, r.0) && r.0.restorePending == s.restorePending
  {
    hide AfterSetDuty;
    var celsius := thermal.Readable();
    if celsius.None? then (s, Err(NoTemperature))
    else
      var (engine, wanted) := Engine.AfterTick(Engine.Started(curve), Finite(celsius.value));
      var (s', r) := AfterSetDuty(w, s, wanted, thermal);
      if r.Err? then (s', r) else (s'.(curve := Some(engine)), r)
  }

  function AfterRelease(w: World, s: LeaseState): (r: (LeaseState, Option<LeaseError>))
    ensures SameBoard(s, r.0) && !r.0.restorePending
  {
    hide AfterFanRelease;
    var s1 := s.(curve := None, requested := 0, applied := 0, restorePending := false);
    if s1.fan.NoFan? then (s1, Some(FanFailed(Unsupported)))
    else
      var (fan, e) := AfterFanRelease(w, s1.fan);
      (s1.(fan := fan, held := false), if e.Some? then Some(FanFailed(e.value)) else None)
  }

  /** Before a suspend: remember the request and hand the fan back. */
  function AfterSleep(w: World, s: LeaseState): (r: (LeaseState, Option<Duty>))
    ensures SameBoard(s, r.0)
  {
    hide AfterReleaseNow;
    if !s.held then (s, None)
    else (AfterReleaseNow(w, s.(restoreDuty := s.requested, restorePending := true)).0, Some(s.requested))
  }

  function AfterCurveReset(s: LeaseState): LeaseState {
    if s.curve.None? then s else s.(curve := Some(Engine.AfterReset(s.curve.value)))
  }

  /** After a resume: take the fan back if it was ours, through the full clamp. */
  function AfterResume(w: World, s: LeaseState, thermal: Thermal)
    : (r: (LeaseState, Option<Result<Applied, LeaseError>>))
    requires Valid(s)
    ensures SameBoard(s, r.0) && !r.0.restorePending
  {
    hide AfterSetDuty;
    if !s.restorePending then (s, None)
    else
      var s1 := AfterCurveReset(s.(restorePending := false));
      var (s2, r) := AfterSetDuty(w, s1, s1.restoreDuty, thermal);
      (s2, Some(r))
  }

  /** A new process: whatever the last one left in the hardware, and nothing else. */
  function AfterRestart(w: World, s: LeaseState): (r: (LeaseState, bool))
    ensures SameInterface(s.fan, r.0.fan) && r.0.profile == s.profile && (Valid(s) ==> Valid(r.0))
    ensures r.0.floor == FRESH && !r.0.held && !r.0.restorePending
  {
    hide AfterReclaim;
    var fan := if s.fan.OnEc? then OnEc(s.fan.ec.(manual := false)) else s.fan;
    AfterReclaim(w, NewLease(s.profile, fan))
  }

  /** At startup: release where the mode cannot be read, else only what is found held. */
  function AfterReclaim(w: World, s: LeaseState): (r: (LeaseState, bool))
    ensures SameBoard(s, r.0) && r.0.restorePending == s.restorePending
    ensures !s.held ==> !r.0.held
  {
    hide AfterReleaseNow, AfterMode;
    if s.fan.OnEc? then AfterReleaseNow(w, s)
    else
      var (fan, mode) := AfterMode(w, s.fan);
      if mode.Err? || mode.value == Auto then (s.(fan := fan), true)
      else AfterReleaseNow(w, s.(fan := fan))
  }

  function AfterObserve(s: LeaseState, from: Celsius, to: Celsius, duty: Duty, rising: bool): LeaseState {
    s.(floor := AfterSpan(s.floor, from, to, duty, rising))
  }

  function AfterRestoreFloor(s: LeaseState, observations: seq<(Celsius, Duty)>): LeaseState {
    s.(floor := AfterRestore(s.floor, observations))
  }

  /** A fan speed below this is noise from a stopped fan. */
  const FAN_SPINNING_RPM: nat := 500

  /** What firmware is doing, as a duty: reported where there is a duty to read, else its target
      speed through this board's fan table. A target of zero on a spinning fan is a dead
      register and teaches nothing. */
  function AfterFirmwareDuty(w: World, s: LeaseState, target: Option<nat>, actual: Option<nat>)
    : (r: (LeaseState, Option<Duty>))
    requires Valid(s)
    ensures SameBoard(s, r.0) && r.0.(fan := s.fan) == s
  {
    hide AfterDuty;
    var (fan, duty) := AfterDuty(w, s.fan);
    var s' := s.(fan := fan);
    if duty.Some? then (s', duty)
    else if target.None? || actual.None? then (s', None)
    else if target.value == 0 && actual.value > FAN_SPINNING_RPM then (s', None)
    else (s', Some(DutyForRpm(FloorProfile(s.profile).dutyRpm, Min(target.value, 65535))))
  }
}
