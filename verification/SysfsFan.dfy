/** Fan control over `pwm1` and `pwm1_enable` (crates/fw-helper-core/src/fan.rs,
    `FanControl`), and the hwmon node it drives.

    The node is the environment: each write may report success or failure and may apply the
    value, ignore it, or settle on something else, and each read may fail. Every result
    holds for every such script.
 */
module SysfsFan {
  import opened Prelude
  import opened FanErrors

  /** How far the reported duty may sit from the request before the write counts as
      rejected. */
  const DUTY_TOLERANCE: nat := 3

  datatype Effect = Ignored | Applied | Became(value: nat)

  datatype WriteReply = WriteReply(ok: bool, effect: Effect)

  /** How the node treats the n-th access, by the kind of access it is. */
  datatype HwScript = HwScript(
    manualWrite: nat -> WriteReply,
    autoWrite: nat -> WriteReply,
    pwmWrite: nat -> WriteReply,
    readOk: nat -> bool)

  /** What the two registers hold: the mode, and a duty that is firmware's own choice while
      the mode is automatic and a manual owner's while it is manual. */
  datatype Registers = Registers(enable: nat, pwm: nat)

  /** The two registers, and how many accesses there have been. */
  datatype HwState = HwState(enable: nat, pwm: nat, clock: nat)

  function Settle(old': nat, written: nat, effect: Effect): nat {
    match effect
    case Ignored => old'
    case Applied => written
    case Became(value) => value
  }

  function AfterWritePwm(script: HwScript, s: HwState, duty: Duty): (HwState, bool) {
    var reply := script.pwmWrite(s.clock);
    (s.(pwm := Settle(s.pwm, duty, reply.effect), clock := s.clock + 1), reply.ok)
  }

  function AfterWriteManual(script: HwScript, s: HwState): (HwState, bool) {
    var reply := script.manualWrite(s.clock);
    (s.(enable := Settle(s.enable, PWM_MANUAL, reply.effect), clock := s.clock + 1), reply.ok)
  }

  function AfterWriteAuto(script: HwScript, s: HwState): (HwState, bool) {
    var reply := script.autoWrite(s.clock);
    (s.(enable := Settle(s.enable, PWM_AUTO, reply.effect), clock := s.clock + 1), reply.ok)
  }

  function AfterReadMode(script: HwScript, s: HwState): (HwState, Option<FanMode>) {
    (s.(clock := s.clock + 1), if script.readOk(s.clock) then Some(FromRaw(s.enable)) else None)
  }

  function AfterReadDuty(script: HwScript, s: HwState): (HwState, Option<Duty>) {
    (s.(clock := s.clock + 1), if script.readOk(s.clock) then Some(Min(s.pwm, 255)) else None)
  }

  function AfterWriteDutyVerified(script: HwScript, s: HwState, duty: Duty): (HwState, Result<Duty, FanError>) {
    var (s1, ok) := AfterWritePwm(script, s, duty);
    if !ok then (s1, Err(Io))
    else
      var (s2, observed) := AfterReadDuty(script, s1);
      if observed.None? then (s2, Err(Io))
      else if AbsDiff(observed.value, duty) > DUTY_TOLERANCE then (s2, Err(DutyNotApplied(duty, observed.value)))
      else (s2, Ok(observed.value))
  }

  /** Release without failing; true when the node then reads as automatic. */
  function AfterReleaseBestEffort(script: HwScript, s: HwState): (HwState, bool) {
    var (s1, _) := AfterWriteAuto(script, s);
    var (s2, mode) := AfterReadMode(script, s1);
    (s2, mode == Some(Auto))
  }

  function AfterRelease(script: HwScript, s: HwState): (HwState, Option<FanError>) {
    var (s1, ok) := AfterWriteAuto(script, s);
    if !ok then (s1, Some(Io))
    else
      var (s2, mode) := AfterReadMode(script, s1);
      (s2, if mode.None? then Some(Io) else if mode.value == Auto then None else Some(NotReleased(mode.value)))
  }

  /** A failure while holding the fan releases it before it is reported. */
  function Guarded(script: HwScript, s: HwState, r: Result<Duty, FanError>): (HwState, Result<Duty, FanError>) {
    if r.Ok? then (s, r)
    else
      var (s1, released) := AfterReleaseBestEffort(script, s);
      if released then (s1, r)
      else
        var (s2, mode) := AfterReadMode(script, s1);
        (s2, Err(NotReleased(if mode.Some? then mode.value else Other(0))))
  }

  /** What happens between the mode switch and a verified duty. */
  function AfterEstablish(script: HwScript, s: HwState, duty: Duty): (HwState, Result<Duty, FanError>) {
    var (s1, mode) := AfterReadMode(script, s);
    if mode.None? then (s1, Err(Io))
    else if mode.value != Manual then (s1, Err(ModeNotApplied(mode.value)))
    else AfterWriteDutyVerified(script, s1, duty)
  }

  function AfterTakeManual(script: HwScript, s: HwState, duty: Duty): (HwState, Result<Duty, FanError>) {
    if 0 < duty < STICTION_DUTY then (s, Err(DutyCannotTurnFan(duty)))
    else
      var (s1, _) := AfterWritePwm(script, s, duty);
      var (s2, ok) := AfterWriteManual(script, s1);
      if !ok then (s2, Err(Io))
      else
        var (s3, r) := AfterEstablish(script, s2, duty);
        Guarded(script, s3, r)
  }

  function AfterSetDuty(script: HwScript, s: HwState, duty: Duty): (HwState, Result<Duty, FanError>) {
    var (s1, mode) := AfterReadMode(script, s);
    if mode.None? then (s1, Err(Io))
    else if mode.value != Manual then (s1, Err(NotUnderManualControl(mode.value)))
    else
      var (s2, r) := AfterWriteDutyVerified(script, s1, duty);
      Guarded(script, s2, r)
  }

  /** The node as an object. */
  class Hwmon {
    var enable: nat
    var pwm: nat
    var clock: nat
    const script: HwScript

    function State(): HwState
      reads this
    {
      HwState(enable, pwm, clock)
    }

    constructor (enable: nat, pwm: nat, script: HwScript)
      ensures State() == HwState(enable, pwm, 0) && this.script == script
    {
      this.enable, this.pwm, this.clock, this.script := enable, pwm, 0, script;
    }

    method WritePwm(duty: Duty) returns (ok: bool)
      modifies this
      ensures (State(), ok) == AfterWritePwm(script, old(State()), duty)
    {
      var reply := script.pwmWrite(clock);
      pwm := Settle(pwm, duty, reply.effect);
      clock := clock + 1;
      ok := reply.ok;
    }

    method WriteEnable(value: nat) returns (ok: bool)
      requires value == PWM_MANUAL || value == PWM_AUTO
      modifies this
      ensures (State(), ok) == if value == PWM_MANUAL then AfterWriteManual(script, old(State()))
                               else AfterWriteAuto(script, old(State()))
    {
      var reply := if value == PWM_MANUAL then script.manualWrite(clock) else script.autoWrite(clock);
      enable := Settle(enable, value, reply.effect);
      clock := clock + 1;
      ok := reply.ok;
    }

    method ReadEnable() returns (value: Option<nat>)
      modifies this
      ensures State() == old(State()).(clock := old(clock) + 1)
      ensures value == if script.readOk(old(clock)) then Some(enable) else None
    {
      value := if script.readOk(clock) then Some(enable) else None;
      clock := clock + 1;
    }

    method ReadPwm() returns (value: Option<nat>)
      modifies this
      ensures State() == old(State()).(clock := old(clock) + 1)
      ensures value == if script.readOk(old(clock)) then Some(pwm) else None
    {
      value := if script.readOk(clock) then Some(pwm) else None;
      clock := clock + 1;
    }
  }

  class FanControl {
    const hwmon: Hwmon

    ghost function State(): HwState
      reads hwmon
    {
      hwmon.State()
    }

    constructor (hwmon: Hwmon)
      ensures this.hwmon == hwmon
    {
      this.hwmon := hwmon;
    }

    method Mode() returns (mode: Option<FanMode>)
      modifies hwmon
      ensures (State(), mode) == AfterReadMode(hwmon.script, old(State()))
    {
      var raw := hwmon.ReadEnable();
      mode := if raw.Some? then Some(FromRaw(raw.value)) else None;
    }

    method ReadDuty() returns (duty: Option<Duty>)
      modifies hwmon
      ensures (State(), duty) == AfterReadDuty(hwmon.script, old(State()))
    {
      var raw := hwmon.ReadPwm();
      duty := if raw.Some? then Some(Min(raw.value, 255)) else None;
    }

    method WriteDutyVerified(duty: Duty) returns (r: Result<Duty, FanError>)
      modifies hwmon
      ensures (State(), r) == AfterWriteDutyVerified(hwmon.script, old(State()), duty)
    {
      var ok := hwmon.WritePwm(duty);
      if !ok {
        return Err(Io);
      }
      var observed := ReadDuty();
      if observed.None? {
        return Err(Io);
      }
      if AbsDiff(observed.value, duty) > DUTY_TOLERANCE {
        return Err(DutyNotApplied(duty, observed.value));
      }
      return Ok(observed.value);
    }

    method ReleaseBestEffort() returns (released: bool)
      modifies hwmon
      ensures (State(), released) == AfterReleaseBestEffort(hwmon.script, old(State()))
    {
      var _ := hwmon.WriteEnable(PWM_AUTO);
      var mode := Mode();
      released := mode == Some(Auto);
    }

    method Release() returns (failure: Option<FanError>)
      modifies hwmon
      ensures (State(), failure) == AfterRelease(hwmon.script, old(State()))
    {
      var ok := hwmon.WriteEnable(PWM_AUTO);
      if !ok {
        return Some(Io);
      }
      var mode := Mode();
      if mode.None? {
        return Some(Io);
      }
      return if mode.value == Auto then None else Some(NotReleased(mode.value));
    }

    method Guard(attempt: Result<Duty, FanError>) returns (r: Result<Duty, FanError>)
      modifies hwmon
      ensures (State(), r) == Guarded(hwmon.script, old(State()), attempt)
    {
      r := attempt;
      if attempt.Err? {
        var released := ReleaseBestEffort();
        if !released {
          var mode := Mode();
          r := Err(NotReleased(if mode.Some? then mode.value else Other(0)));
        }
      }
    }

    method TakeManual(duty: Duty) returns (r: Result<Duty, FanError>)
      modifies hwmon
      ensures (State(), r) == AfterTakeManual(hwmon.script, old(State()), duty)
    {
      if duty > 0 && duty < STICTION_DUTY {
        return Err(DutyCannotTurnFan(duty));
      }
      // Pre-load the duty; refused by this kernel while the EC owns the fan, and ignored.
      var _ := hwmon.WritePwm(duty);
      var ok := hwmon.WriteEnable(PWM_MANUAL);
      if !ok {
        return Err(Io);
      }
      var observed := Mode();
      if observed.None? {
        r := Err(Io);
      } else if observed.value != Manual {
        r := Err(ModeNotApplied(observed.value));
      } else {
        r := WriteDutyVerified(duty);
      }
      r := Guard(r);
    }

    method SetDuty(duty: Duty) returns (r: Result<Duty, FanError>)
      modifies hwmon
      ensures (State(), r) == AfterSetDuty(hwmon.script, old(State()), duty)
    {
      var mode := Mode();
      if mode.None? {
        return Err(Io);
      }
      if mode.value != Manual {
        return Err(NotUnderManualControl(mode.value));
      }
      r := WriteDutyVerified(duty);
      r := Guard(r);
    }
  }

  // ------------------------------------------------------------ what it promises

  /** A mode switch that reported failure and took effect anyway. */
  predicate SwitchedDespiteFailure(script: HwScript, s: HwState) {
    var reply := script.manualWrite(s.clock + 1);
    !reply.ok && Settle(s.enable, PWM_MANUAL, reply.effect) != PWM_AUTO
  }

  /** Held, at a duty that was read back and is near enough to the one asked for. */
  predicate Verified(s: HwState, settled: Duty, duty: Duty) {
    s.enable == PWM_MANUAL && settled == Min(s.pwm, 255) && AbsDiff(settled, duty) <= DUTY_TOLERANCE
  }

  /** Taking the fan from the EC ends in one of three ways. */
  ghost predicate CleanOutcome(s': HwState, r: Result<Duty, FanError>, duty: Duty) {
    match r
    case Ok(settled) => Verified(s', settled, duty)
    case Err(NotReleased(_)) => true
    case Err(_) => s'.enable == PWM_AUTO
  }

  /** Under any pattern of failed, ignored or quantized writes and failed reads, taking the
      fan from the EC ends manual at a verified duty, or with the EC owning the fan, or in
      the one error that says it could not be given back. The exact exception is a mode
      switch that reports failure and takes effect: that error path does not release. */
  lemma TakeManualEndsClean(script: HwScript, s: HwState, duty: Duty)
    requires s.enable == PWM_AUTO
    ensures
      var (s', r) := AfterTakeManual(script, s, duty);
      CleanOutcome(s', r, duty) <==> ((0 < duty < STICTION_DUTY) || !SwitchedDespiteFailure(script, s))
  {}

  /** A node on which every access does what it says, but a mode switch reports failure. */
  const MISREPORTED_SWITCH: HwScript := HwScript(
    n => WriteReply(false, Applied), n => WriteReply(true, Applied), n => WriteReply(true, Applied), n => true)

  /** The exception is real: the caller is told of a failed write and the fan stays manual. */
  lemma MisreportedSwitchIsKept(clock: nat)
    ensures
      var (s', r) := AfterTakeManual(MISREPORTED_SWITCH, HwState(PWM_AUTO, 0, clock), 100);
      r == Err(Io) && s'.enable == PWM_MANUAL && !CleanOutcome(s', r, 100)
  {}

  /** The fan is never left manual by an operation that reports it was released. */
  lemma ReleaseIsVerified(script: HwScript, s: HwState)
    ensures AfterRelease(script, s).1.None? ==> AfterRelease(script, s).0.enable == PWM_AUTO
    ensures AfterReleaseBestEffort(script, s).1 ==> AfterReleaseBestEffort(script, s).0.enable == PWM_AUTO
  {}

  /** Changing the duty of a held fan keeps it held at a verified duty, or gives it back,
      or says it could not; a read that fails beforehand changes nothing. */
  lemma SetDutyEndsClean(script: HwScript, s: HwState, duty: Duty)
    ensures
      var (s', r) := AfterSetDuty(script, s, duty);
      match r
      case Ok(settled) => Verified(s', settled, duty)
      case Err(NotReleased(_)) => true
      case Err(_) => s'.enable == PWM_AUTO || (s'.enable == s.enable && s'.pwm == s.pwm)
    ensures
      var (s', r) := AfterSetDuty(script, s, duty);
      (s'.enable, s'.pwm) == (s.enable, s.pwm) || s.enable == PWM_MANUAL
    ensures
      var (s', r) := AfterSetDuty(script, s, duty);
      script.readOk(s.clock) && s.enable != PWM_MANUAL <==> r.Err? && r.error.NotUnderManualControl?
  {}
}
