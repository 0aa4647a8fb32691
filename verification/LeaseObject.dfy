/** The fan lease as the object the daemon holds (crates/fw-helperd/src/fan.rs,
    `FanLease`). Every method is proved to carry out the decision of the same step in
    `Lease`, on the fields, the curve engine, the floor and the hardware behind it. */
module LeaseObject {
  import opened Prelude
  import opened FanErrors
  import opened Board
  import opened ThermalInputs
  import opened Lease
  import Floor
  import FloorModel
  import EcFan
  import SysfsFan
  import Curve
  import Engine

  class FanLease {
    const sysfs: SysfsFan.FanControl?
    const ec: EcFan.EcFanControl?
    const profile: Option<BoardProfile>
    const floor: Floor.FirmwareFloor
    var held: bool
    var requested: Duty
    var applied: Duty
    var restorePending: bool
    var restoreDuty: Duty
    var curve: Engine.CurveEngine?

    /** The objects behind the hardware interface. */
    ghost function Hardware(): set<object> {
      (if sysfs != null then {sysfs.hwmon} else {}) + (if ec != null then {ec, ec.ec} else {})
    }

    /** Everything an operation may change. */
    ghost function Parts(): set<object>
      reads this
    {
      {this, floor, floor.observed, floor.seen} + Hardware() + (if curve != null then {curve} else {})
    }

    ghost predicate Valid()
      reads this, floor, floor.observed, floor.seen
    {
      && floor.Valid() && floor.profile == FloorProfile(profile)
      && (profile.Some? ==> |profile.value.dutyRpm| > 0 && |profile.value.firmwareCurve| > 0)
      && (curve != null ==> Curve.Valid(curve.curve))
    }

    ghost function FanState(): Fan
      reads Hardware()
    {
      if sysfs != null then OnSysfs(sysfs.State())
      else if ec != null then OnEc(ec.State()) else NoFan
    }

    /** How the hardware behind this lease behaves. */
    ghost function Environment(): World {
      World(if sysfs != null then sysfs.hwmon.script else IDLE_HWMON,
            if ec != null then ec.ec.script else IDLE_EC)
    }

    ghost function State(): (s: LeaseState)
      requires Valid()
      reads this, floor, floor.observed, floor.seen, Hardware(), curve
      ensures Lease.Valid(s)
    {
      LeaseState(profile, FanState(), held, requested, applied, restorePending, restoreDuty,
                 if curve != null then Some(curve.State()) else None, floor.State())
    }

    constructor ForBoard(profile: Option<BoardProfile>, sysfs: SysfsFan.FanControl?, ec: EcFan.EcFanControl?)
      requires profile.Some? ==> |profile.value.dutyRpm| > 0 && |profile.value.firmwareCurve| > 0
      ensures Valid() && State() == NewLease(profile, FanState())
      ensures this.sysfs == sysfs && this.ec == ec && fresh({this, floor, floor.observed, floor.seen})
    {
      this.profile, this.sysfs, this.ec := profile, sysfs, ec;
      held, requested, applied := false, 0, 0;
      restorePending, restoreDuty, curve := false, 0, null;
      floor := new Floor.FirmwareFloor.ForBoard(FloorProfile(profile));
    }

    // ------------------------------------------------------------ the hardware

    method Mode() returns (mode: Result<FanMode, FanError>)
      modifies Hardware()
      ensures (FanState(), mode) == AfterMode(Environment(), old(FanState()))
    {
      if sysfs != null {
        var m := sysfs.Mode();
        return if m.Some? then Ok(m.value) else Err(Io);
      } else if ec != null {
        return Ok(if ec.manual then Manual else Auto);
      }
      return Err(Unsupported);
    }

    method ReadDuty() returns (duty: Option<Duty>)
      modifies Hardware()
      ensures (FanState(), duty) == AfterDuty(Environment(), old(FanState()))
    {
      if sysfs != null {
        duty := sysfs.ReadDuty();
      } else {
        duty := None;
      }
    }

    method TakeOrChange(manual: bool, duty: Duty) returns (r: Result<Duty, FanError>)
      modifies Hardware()
      ensures (FanState(), r) == if manual then AfterChange(Environment(), old(FanState()), duty)
                                 else AfterTake(Environment(), old(FanState()), duty)
    {
      hide SysfsFan.AfterTakeManual, SysfsFan.AfterSetDuty, EcFan.AfterTakeManual, EcFan.AfterSetDuty;
      if sysfs != null {
        if manual {
          r := sysfs.SetDuty(duty);
        } else {
          r := sysfs.TakeManual(duty);
        }
      } else if ec != null {
        if manual {
          r := ec.SetDuty(duty);
        } else {
          r := ec.TakeManual(duty);
        }
      } else {
        r := Err(Unsupported);
      }
    }

    method ReleaseFan() returns (failure: Option<FanError>)
      modifies Hardware()
      ensures (FanState(), failure) == AfterFanRelease(Environment(), old(FanState()))
    {
      if sysfs != null {
        failure := sysfs.Release();
      } else if ec != null {
        failure := ec.Release();
      } else {
        failure := Some(Unsupported);
      }
    }

    // ---------------------------------------------------------- the operations

    /** The release of last resort: its only answer is a yes or no. Touches neither the curve nor the floor. */
    method ReleaseNow() returns (released: bool)
      requires Valid()
      modifies `held, Hardware()
      ensures Valid() && curve == old(curve)
      ensures (State(), released) == AfterReleaseNow(Environment(), old(State()))
    {
      hide SysfsFan.AfterReleaseBestEffort, EcFan.AfterRelease;
      if sysfs != null {
        released := sysfs.ReleaseBestEffort();
      } else if ec != null {
        var failure := ec.Release();
        released := failure.None?;
      } else {
        released := true;
      }
      held := false;
    }

    method Write(duty: Duty) returns (r: Result<Duty, LeaseError>)
      requires Valid()
      modifies `held, `applied, Hardware()
      ensures Valid() && curve == old(curve)
      ensures (State(), r) == AfterWrite(Environment(), old(State()), duty)
    {
      hide AfterMode, AfterTake, AfterChange, FanState, Environment;
      if profile.None? {
        return Err(UnmeasuredBoard);
      }
      var mode := Mode();
      if mode.Err? {
        return Err(FanFailed(mode.error));
      }
      var settled := TakeOrChange(mode.value == Manual, duty);
      if settled.Err? {
        return Err(FanFailed(settled.error));
      }
      // A refused write leaves the lease as it was.
      held := true;
      applied := duty;
      return Ok(settled.value);
    }

    method SetDuty(duty: Duty, thermal: Thermal) returns (r: Result<Applied, LeaseError>)
      requires Valid()
      modifies `held, `applied, `requested, Hardware()
      ensures Valid() && curve == old(curve)
      ensures (State(), r) == AfterSetDuty(Environment(), old(State()), duty, thermal)
    {
      hide AfterWrite, Floor.FloorDuty, FanState, Environment;
      var celsius := thermal.Readable();
      if celsius.None? {
        return Err(NoTemperature);
      }
      if thermal.ceiling.ExceededBy(Finite(celsius.value)) {
        return Err(AboveCeiling);
      }
      if thermal.BatteryExceeded() {
        return Err(BatteryTooHot);
      }
      var bound := Max(Floor.FloorDuty(floor.profile, floor.Contents(), Finite(celsius.value)), thermal.BatteryFloor());
      var target := Max(duty, bound);
      var settled := Write(target);
      if settled.Err? {
        return Err(settled.error);
      }
      requested := duty;
      return Ok(Applied(duty, target, settled.value, bound));
    }

    /** Let an active curve replace the request; without one the request stands. */
    method CurveTick(celsius: real)
      requires Valid()
      modifies `requested, curve
      ensures Valid() && curve == old(curve)
      ensures State() == AfterCurveTick(old(State()), celsius)
    {
      if curve != null {
        requested := curve.Tick(Finite(celsius));
      }
    }

    /** Correct a held fan toward the request and the bound. */
    method Hold(celsius: real, thermal: Thermal) returns (outcome: Option<Enforced>)
      requires Valid()
      modifies `held, `applied, Hardware()
      ensures Valid() && curve == old(curve)
      ensures (State(), outcome) == AfterHold(Environment(), old(State()), celsius, thermal)
    {
      hide AfterWrite, AfterDuty, Floor.FloorDuty, FanState, Environment;
      var bound := Max(Floor.FloorDuty(floor.profile, floor.Contents(), Finite(celsius)), thermal.BatteryFloor());
      var target := Max(requested, bound);
      var current := ReadDuty();
      var previous := applied;
      var decisionChanged := target != previous;
      var drifted := current.None? || AbsDiff(current.value, target) > SysfsFan.DUTY_TOLERANCE;
      if !decisionChanged && !drifted {
        return None;
      }
      var settled := Write(target);
      if settled.Err? {
        return Some(Failed(settled.error));
      }
      if !decisionChanged && current.None? {
        return None;
      }
      return Some(Corrected(if current.Some? then current.value else previous, settled.value, bound, celsius));
    }

    method EnforceFloor(thermal: Thermal) returns (outcome: Option<Enforced>)
      requires Valid()
      modifies `held, `applied, `requested, Hardware(), curve
      ensures Valid() && curve == old(curve)
      ensures (State(), outcome) == AfterEnforce(Environment(), old(State()), thermal)
    {
      hide AfterHold, AfterReleaseNow, AfterCurveTick;
      if !held {
        return None;
      }
      var celsius := thermal.Readable();
      if celsius.None? {
        var released := ReleaseNow();
        return Some(ReleasedNoSensor(released));
      }
      if thermal.ceiling.ExceededBy(Finite(celsius.value)) {
        var released := ReleaseNow();
        return Some(ReleasedTooHot(released));
      }
      if thermal.BatteryExceeded() {
        var released := ReleaseNow();
        return Some(ReleasedBatteryHot(released));
      }
      CurveTick(celsius.value);
      outcome := Hold(celsius.value, thermal);
    }

    method SetCurve(points: seq<Curve.Point>, thermal: Thermal) returns (r: Result<Applied, LeaseError>)
      requires Valid() && Curve.Valid(points)
      modifies `held, `applied, `requested, `curve, Hardware()
      ensures Valid()
      ensures curve != old(curve) ==> fresh(curve)
      ensures (State(), r) == AfterSetCurve(Environment(), old(State()), points, thermal)
    {
      hide AfterSetDuty, FanState, Environment, Engine.AfterTick;
      var celsius := thermal.Readable();
      if celsius.None? {
        return Err(NoTemperature);
      }
      var engine := new Engine.CurveEngine(points);
      var wanted := engine.Tick(Finite(celsius.value));
      r := SetDuty(wanted, thermal);
      // A refused request leaves the old curve, or none, in place.
      if r.Ok? {
        curve := engine;
      }
    }

    /** Forget the request, the curve and any pending restore. */
    method Forget()
      requires Valid()
      modifies `curve, `requested, `applied, `restorePending
      ensures Valid()
      ensures State() == old(State()).(curve := None, requested := 0, applied := 0, restorePending := false)
    {
      curve := null;
      requested := 0;
      applied := 0;
      restorePending := false;
    }

    /** Drop everything that was asked for, then release and report how that went. */
    method Release() returns (failure: Option<LeaseError>)
      requires Valid()
      modifies this, Hardware()
      ensures Valid()
      ensures (State(), failure) == AfterRelease(Environment(), old(State()))
    {
      hide AfterFanRelease;
      Forget();
      if sysfs == null && ec == null {
        return Some(FanFailed(Unsupported));
      }
      var e := ReleaseFan();
      held := false;
      return if e.Some? then Some(FanFailed(e.value)) else None;
    }

    method ReleaseForSleep() returns (kept: Option<Duty>)
      requires Valid()
      modifies `held, `restoreDuty, `restorePending, Hardware()
      ensures Valid() && curve == old(curve)
      ensures (State(), kept) == AfterSleep(Environment(), old(State()))
    {
      hide AfterReleaseNow;
      if !held {
        return None;
      }
      var duty := requested;
      restoreDuty := duty;
      restorePending := true;
      var _ := ReleaseNow();
      return Some(duty);
    }

    method RestoreAfterResume(thermal: Thermal) returns (r: Option<Result<Applied, LeaseError>>)
      requires Valid()
      modifies `held, `applied, `requested, `restorePending, Hardware(), curve
      ensures Valid() && curve == old(curve)
      ensures (State(), r) == AfterResume(Environment(), old(State()), thermal)
    {
      hide AfterSetDuty, FanState, Environment;
      if !restorePending {
        return None;
      }
      restorePending := false;
      if curve != null {
        curve.Reset();
      }
      var applied := SetDuty(restoreDuty, thermal);
      return Some(applied);
    }

    method ReclaimAtStartup()
      requires Valid()
      modifies `held, Hardware()
      ensures Valid() && curve == old(curve)
      ensures State() == AfterReclaim(Environment(), old(State())).0
    {
      hide AfterReleaseNow, AfterMode;
      if sysfs == null && ec != null {
        var _ := ReleaseNow();
        return;
      }
      var mode := Mode();
      if mode.Ok? && mode.value != Auto {
        var _ := ReleaseNow();
      }
    }

    method Observe(from: Celsius, to: Celsius, duty: Duty, rising: bool)
      requires Valid()
      modifies floor, floor.observed, floor.seen
      ensures Valid()
      ensures State() == AfterObserve(old(State()), from, to, duty, rising)
    {
      floor.ObserveSpan(from, to, duty, rising);
    }

    method RestoreFloor(observations: seq<(Celsius, Duty)>)
      requires Valid()
      modifies floor, floor.observed, floor.seen
      ensures Valid()
      ensures State() == AfterRestoreFloor(old(State()), observations)
    {
      floor.Restore(observations);
    }

    /** What firmware is doing, as a duty; `target` and `actual` are what the node reports of
        its speeds. */
    method FirmwareDuty(target: Option<nat>, actual: Option<nat>) returns (duty: Option<Duty>)
      requires Valid()
      modifies Hardware()
      ensures Valid()
      ensures (State(), duty) == AfterFirmwareDuty(Environment(), old(State()), target, actual)
    {
      hide AfterDuty, FanState, Environment;
      duty := ReadDuty();
      if duty.None? && target.Some? && actual.Some? && !(target.value == 0 && actual.value > FAN_SPINNING_RPM) {
        duty := Some(FloorModel.DutyForRpm(floor.profile.dutyRpm, Min(target.value, 65535)));
      }
    }
  }

  /** Placeholders for an interface the board does not have; nothing ever asks them. */
  const IDLE_EC: EcFan.EcScript :=
    EcFan.EcScript(n => EcFan.Reply(true, true), n => EcFan.Reply(true, true))

  const IDLE_HWMON: SysfsFan.HwScript :=
    SysfsFan.HwScript(
      n => SysfsFan.WriteReply(true, SysfsFan.Applied), n => SysfsFan.WriteReply(true, SysfsFan.Applied),
      n => SysfsFan.WriteReply(true, SysfsFan.Applied), n => true)
}
