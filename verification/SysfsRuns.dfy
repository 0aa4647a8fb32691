/** What holds over whole runs on a board whose fan is driven through sysfs, where the mode
    and the duty can be read back but not every access can be trusted. */
module SysfsRuns {
  import opened Prelude
  import opened FanErrors
  import opened Board
  import opened FanScale
  import opened FloorModel
  import opened Floor
  import opened ThermalInputs
  import opened Lease
  import opened LeaseRuns
  import EcFan
  import SysfsFan
  import Engine

  // ------------------------------------------------------- who has the fan

  /** A lease that is not held means the mode is not manual. */
  ghost predicate InHand(s: LeaseState) {
    Valid(s) && s.fan.OnSysfs? && (!s.held ==> s.fan.hw.enable != PWM_MANUAL)
  }

  /** Handing the fan back works, whatever is said of it, and a mode switch that reports
      failure has none. */
  ghost predicate Straight(w: World) {
    forall n ::
      && w.hw.autoWrite(n).effect == SysfsFan.Applied
      && (!w.hw.manualWrite(n).ok ==> w.hw.manualWrite(n).effect == SysfsFan.Ignored)
  }

  /** Nothing else takes the fan by hand, and every new process that finds it manual can read
      that it is. */
  ghost predicate Undisturbed(w: World, s: LeaseState, events: seq<Event>)
    requires Valid(s) && s.fan.OnSysfs?
  {
    events == [] ||
    (var (before, e) := (events[..|events| - 1], events[|events| - 1]);
     && Undisturbed(w, s, before)
     && (e.Outside? ==> e.registers.enable != PWM_MANUAL)
     && (e.Restart? ==> e.registers.enable != PWM_MANUAL || w.hw.readOk(Run(w, s, before).fan.hw.clock)))
  }

  lemma WriteKeepsHand(w: World, s: LeaseState, duty: Duty)
    requires InHand(s) && Straight(w)
    ensures InHand(AfterWrite(w, s, duty).0)
  {
    hide EcFan.AfterTakeManual, EcFan.AfterSetDuty;
  }

  lemma ReleaseKeepsHand(w: World, s: LeaseState)
    requires Valid(s) && s.fan.OnSysfs? && Straight(w)
    ensures InHand(AfterReleaseNow(w, s).0) && InHand(AfterRelease(w, s).0)
  {
    hide EcFan.AfterRelease;
  }

  lemma SetDutyKeepsHand(w: World, s: LeaseState, duty: Duty, thermal: Thermal)
    requires InHand(s) && Straight(w)
    ensures InHand(AfterSetDuty(w, s, duty, thermal).0)
  {
    hide AfterWrite, FloorDuty;
    if thermal.Readable().Some? {
      WriteKeepsHand(w, s, Max(duty, Bound(s, thermal.Readable().value, thermal)));
    }
  }

  lemma TickKeepsHand(w: World, s: LeaseState, thermal: Thermal)
    requires InHand(s) && Straight(w)
    ensures InHand(AfterEnforce(w, s, thermal).0)
  {
    hide AfterWrite, AfterReleaseNow, AfterCurveTick, FloorDuty;
    ReleaseKeepsHand(w, s);
    if s.held && thermal.Readable().Some? {
      var s1 := AfterCurveTick(s, thermal.Readable().value);
      var read := s1.(fan := AfterDuty(w, s1.fan).0);
      WriteKeepsHand(w, read, Max(s1.requested, Bound(s1, thermal.Readable().value, thermal)));
    }
  }

  /** What a restart leaves: on a node that can be handed back, the fan is left manual exactly
      when it was and the new process cannot read that it is. Any mode it can read and that is
      not automatic it takes back. */
  lemma RestartFreesExactly(w: World, s: LeaseState, left: Option<Percent>, registers: SysfsFan.Registers)
    requires Valid(s) && s.fan.OnSysfs? && w.hw.autoWrite(s.fan.hw.clock + 1).effect == SysfsFan.Applied
    ensures
      var s' := Step(w, s, Restart(left, registers));
      && !s'.held && s'.fan.OnSysfs?
      && (InHand(s') <==> registers.enable != PWM_MANUAL || w.hw.readOk(s.fan.hw.clock))
      && s'.fan.hw.enable == (if w.hw.readOk(s.fan.hw.clock) then PWM_AUTO else registers.enable)
  {
    hide EcFan.AfterRelease;
  }

  /** That case is real: one failed read at startup, and the fan stays manual with nobody
      holding it. */
  lemma BlindReclaimLeavesFanManual(s: LeaseState, left: Option<Percent>)
    requires Valid(s) && s.fan.OnSysfs?
    ensures
      var write := (n: nat) => SysfsFan.WriteReply(true, SysfsFan.Applied);
      var clock := s.fan.hw.clock;
      var w := World(SysfsFan.HwScript(write, write, write, n => n != clock), HONEST_EC);
      var s' := Step(w, s, Restart(left, SysfsFan.Registers(PWM_MANUAL, 0)));
      Straight(w) && !s'.held && s'.fan.OnSysfs? && s'.fan.hw.enable == PWM_MANUAL
  {
    hide EcFan.AfterRelease;
  }

  /** An EC with nothing wrong with it, for worlds where it is not the fan's interface. */
  const HONEST_EC: EcFan.EcScript :=
    EcFan.EcScript(n => EcFan.Reply(true, true), n => EcFan.Reply(true, true))

  /** A release clears the flag whether or not it worked: the lease is in hand afterwards
      exactly when the write of the mode did not leave it manual. */
  lemma ReleaseForgetsExactly(w: World, s: LeaseState)
    requires Valid(s) && s.fan.OnSysfs?
    ensures
      var effect := w.hw.autoWrite(s.fan.hw.clock).effect;
      var s' := AfterReleaseNow(w, s).0;
      !s'.held && (InHand(s') <==> SysfsFan.Settle(s.fan.hw.enable, PWM_AUTO, effect) != PWM_MANUAL)
  {
    hide EcFan.AfterRelease;
  }

  lemma StepKeepsHand(w: World, s: LeaseState, e: Event)
    requires InHand(s) && Straight(w)
    requires e.Outside? ==> e.registers.enable != PWM_MANUAL
    requires e.Restart? ==> e.registers.enable != PWM_MANUAL || w.hw.readOk(s.fan.hw.clock)
    ensures InHand(Step(w, s, e))
  {
    hide AfterSetDuty, AfterReleaseNow, AfterRelease, AfterEnforce, AfterRestart, Engine.AfterTick;
    match e
    case SetDuty(duty, thermal) => SetDutyKeepsHand(w, s, duty, thermal);
    case SetCurve(curve, thermal) =>
      if thermal.Readable().Some? {
        var wanted := Engine.AfterTick(Engine.Started(curve), Finite(thermal.Readable().value)).1;
        SetDutyKeepsHand(w, s, wanted, thermal);
      }
    case Tick(thermal) => TickKeepsHand(w, s, thermal);
    case Release => ReleaseKeepsHand(w, s);
    case ReleaseNow => ReleaseKeepsHand(w, s);
    case Sleep => ReleaseKeepsHand(w, s.(restoreDuty := s.requested, restorePending := true));
    case Resume(thermal) =>
      SetDutyKeepsHand(w, AfterCurveReset(s.(restorePending := false)), s.restoreDuty, thermal);
    case Restart(left, registers) => RestartFreesExactly(w, s, left, registers);
    case _ =>
  }

  /** On every such run a lease that is not held means the fan is not under manual control. */
  lemma {:induction false} RunKeepsHand(w: World, s: LeaseState, events: seq<Event>)
    requires InHand(s) && Straight(w) && Undisturbed(w, s, events)
    ensures InHand(Run(w, s, events))
  {
    hide Step, InHand, Straight;
    if events == [] {
    } else {
      var before := events[..|events| - 1];
      InHandIsSysfs(s);
      RunKeepsHand(w, s, before);
      StepKeepsHand(w, Run(w, s, before), events[|events| - 1]);
    }
  }

  lemma InHandIsSysfs(s: LeaseState)
    requires InHand(s)
    ensures Valid(s) && s.fan.OnSysfs?
  {}

  // ----------------------------------------------------- where a tick settles

  /** A successful write on sysfs leaves the register within the tolerance. */
  lemma WriteSettles(w: World, s: LeaseState, duty: Duty)
    requires s.fan.OnSysfs?
    ensures
      var (s', r) := AfterWrite(w, s, duty);
      r.Ok? ==>
        && s'.fan.OnSysfs? && s'.applied == duty
        && AbsDiff(Min(s'.fan.hw.pwm, 255), duty) <= SysfsFan.DUTY_TOLERANCE
  {
    hide EcFan.AfterTakeManual, EcFan.AfterSetDuty;
  }

  /** A tick that releases and fails nothing leaves the register within the tolerance of the
      duty applied. */
  lemma TickSettles(w: World, s: LeaseState, thermal: Thermal)
    requires Valid(s) && s.fan.OnSysfs? && s.held
    ensures
      var (s', outcome) := AfterEnforce(w, s, thermal);
      outcome.None? || outcome.value.Corrected? ==>
        s'.fan.OnSysfs? && AbsDiff(Min(s'.fan.hw.pwm, 255), s'.applied) <= SysfsFan.DUTY_TOLERANCE
  {
    hide AfterWrite, AfterReleaseNow, AfterCurveTick, FloorDuty;
    var celsius := thermal.Readable();
    if celsius.Some? {
      var s1 := AfterCurveTick(s, celsius.value);
      var target := Max(s1.requested, Bound(s1, celsius.value, thermal));
      WriteSettles(w, s1.(fan := AfterDuty(w, s1.fan).0), target);
    }
  }

  /** What a good tick on sysfs leaves in the register: the applied duty, which is at least the
      floor, to within the tolerance. */
  lemma TickNearFloor(w: World, s: LeaseState, thermal: Thermal)
    requires Valid(s) && s.fan.OnSysfs? && s.held
    ensures
      var (s', outcome) := AfterEnforce(w, s, thermal);
      outcome.None? || outcome.value.Corrected? ==>
        && thermal.Readable().Some? && s'.fan.OnSysfs?
        && s'.applied >= LeaseFloor(s, thermal.Readable().value)
        && AbsDiff(Min(s'.fan.hw.pwm, 255), s'.applied) <= SysfsFan.DUTY_TOLERANCE
  {
    TickSettles(w, s, thermal);
    hide AfterHold, AfterReleaseNow, AfterCurveTick, FloorDuty;
    if thermal.Readable().Some? {
      var celsius := thermal.Readable().value;
      HoldApplies(w, AfterCurveTick(s, celsius), celsius, thermal);
    }
  }

  /** How far a register may sit under what was learned. The margin is two counts and the
      tolerance three, so one count at most below the saturating end, and none within two of
      the applied duty. */
  ghost predicate NearLearned(register: int, applied: Duty, learned: Duty) {
    learned > 0 ==>
      && register + AbsDiff(register, applied) >= Min(learned + 2, 255)
      && (learned <= 253 ==> register >= learned - 1)
      && (learned <= 253 && AbsDiff(register, applied) <= 2 ==> register >= learned)
      && register >= learned - 3
  }

  /** Over whole runs: after a tick that fails and releases nothing, the
      register is as near as that to everything the running process was told firmware uses
      at the temperature of the tick. */
  lemma NeverFarBelowFirmware(w: World, s0: LeaseState, events: seq<Event>, thermal: Thermal, told: FloorEvent)
    requires Valid(s0) && s0.fan.OnSysfs? && s0.floor == FRESH && Run(w, s0, events).held
    requires thermal.Readable().Some? && Bucket(Finite(thermal.Readable().value)).Some?
    requires told in Told(events) && Covers(told, Bucket(Finite(thermal.Readable().value)).value)
    ensures
      var (s', outcome) := AfterEnforce(w, Run(w, s0, events), thermal);
      outcome.None? || outcome.value.Corrected? ==>
        s'.fan.OnSysfs? && NearLearned(Min(s'.fan.hw.pwm, 255), s'.applied, told.duty)
  {
    hide AfterEnforce, Run, Told, LearnAll, Covers, Bucket;
    var s := Run(w, s0, events);
    var bucket := Bucket(Finite(thermal.Readable().value)).value;
    TickNearFloor(w, s, thermal);
    FloorIsHistory(w, s0, events);
    TableIsLoudest(Told(events), bucket);
  }

  /** The count is really lost: told of duty 50, a node that settles three counts low is left
      at 49, and the tick reports success. */
  lemma ToleranceCostsACount()
    ensures
      var node := SysfsFan.HwScript(
        n => SysfsFan.WriteReply(true, SysfsFan.Applied), n => SysfsFan.WriteReply(true, SysfsFan.Applied),
        n => SysfsFan.WriteReply(true, SysfsFan.Became(49)), n => true);
      var w := World(node, HONEST_EC);
      var free := NewLease(Some(INTEL_CORE_ULTRA_3), OnSysfs(SysfsFan.HwState(PWM_MANUAL, 0, 0)));
      var s := AfterObserve(free.(held := true), Finite(60.0), Finite(60.0), 50, true);
      var thermal := Thermal(Some(Finite(60.0)), CeilingFromCrit(None), None, BatteryGuardFromCrit(None));
      var (s', outcome) := AfterEnforce(w, s, thermal);
      s'.fan.OnSysfs? && s'.fan.hw.pwm == 49 && outcome == Some(Corrected(0, 49, 52, 60.0))
  {
    var bucket := Bucket(Finite(60.0));
    assert bucket == Some(15);
    assert RecordRange(FRESH, 15, 16, 50) == AfterRecord(RecordRange(FRESH, 15, 15, 50), 15, 50);
  }

  /** An accepted request settles in the same way, and says where. */
  lemma AcceptedDutyNearTarget(w: World, s: LeaseState, duty: Duty, thermal: Thermal)
    requires Valid(s) && s.fan.OnSysfs?
    ensures
      var (s', r) := AfterSetDuty(w, s, duty, thermal);
      r.Ok? ==>
        && thermal.Readable().Some? && s'.fan.OnSysfs?
        && r.value.target >= LeaseFloor(s, thermal.Readable().value) && r.value.target >= duty
        && r.value.settled == Min(s'.fan.hw.pwm, 255)
        && AbsDiff(r.value.settled, r.value.target) <= SysfsFan.DUTY_TOLERANCE
  {
    hide FloorDuty, EcFan.AfterTakeManual, EcFan.AfterSetDuty;
  }

  // ------------------------------------------------ exactly when it is kept

  /** A reading at which a held fan is kept rather than given back. */
  predicate Keeps(thermal: Thermal) {
    && thermal.Readable().Some?
    && !thermal.ceiling.ExceededBy(Finite(thermal.Readable().value))
    && !thermal.BatteryExceeded()
  }

  /** What the tick asks of the fan: the request, raised to what bounds it. */
  function Target(s: LeaseState, thermal: Thermal): Duty
    requires Valid(s) && thermal.Readable().Some?
  {
    var celsius := thermal.Readable().value;
    Max(AfterCurveTick(s, celsius).requested, Bound(s, celsius, thermal))
  }

  /** The tick releases and fails nothing. */
  ghost predicate Good(w: World, s: LeaseState, thermal: Thermal)
    requires Valid(s)
  {
    var outcome := AfterEnforce(w, s, thermal).1;
    outcome.None? || outcome.value.Corrected?
  }

  /** What the duty register then reads. */
  function Register(w: World, s: LeaseState, thermal: Thermal): Duty
    requires Valid(s) && s.fan.OnSysfs?
  {
    Min(AfterEnforce(w, s, thermal).0.fan.hw.pwm, 255)
  }

  lemma GoodTickNearTarget(w: World, s: LeaseState, thermal: Thermal)
    requires Valid(s) && s.fan.OnSysfs? && s.held && Keeps(thermal) && Good(w, s, thermal)
    ensures AbsDiff(Register(w, s, thermal), Target(s, thermal)) <= SysfsFan.DUTY_TOLERANCE
  {
    TickSettles(w, s, thermal);
    hide AfterHold, AfterCurveTick, FloorDuty;
    var celsius := thermal.Readable().value;
    HoldApplies(w, AfterCurveTick(s, celsius), celsius, thermal);
  }

  /** Where the register can be read, a kept tick does nothing exactly when the target is what was
      last applied and the register is within three counts of it; then nothing is written. */
  lemma QuietTickExactly(w: World, s: LeaseState, thermal: Thermal)
    requires Valid(s) && s.fan.OnSysfs? && s.held && Keeps(thermal) && w.hw.readOk(s.fan.hw.clock)
    ensures
      var (s', outcome) := AfterEnforce(w, s, thermal);
      && (outcome.None? <==>
            Target(s, thermal) == s.applied && AbsDiff(Min(s.fan.hw.pwm, 255), Target(s, thermal)) <= 3)
      && (outcome.None? ==> s'.fan.OnSysfs? && s'.fan.hw == s.fan.hw.(clock := s.fan.hw.clock + 1))
  {
    hide AfterWrite, AfterCurveTick, FloorDuty;
  }

  /** A node that cannot be read at `clock`, and settles every duty written at `settled`. */
  function LowNode(clock: nat, settled: nat): World {
    var write := (n: nat) => SysfsFan.WriteReply(true, SysfsFan.Applied);
    World(SysfsFan.HwScript(write, write, n => SysfsFan.WriteReply(true, SysfsFan.Became(settled)), n => n != clock),
          HONEST_EC)
  }

  lemma LowNodeSettlesLow(s: LeaseState, duty: Duty)
    requires s.profile.Some? && s.fan.OnSysfs? && duty >= STICTION_DUTY
    ensures
      var w := LowNode(s.fan.hw.clock, duty - 3);
      var read := s.(fan := AfterDuty(w, s.fan).0);
      var (s', r) := AfterWrite(w, read, duty);
      AfterDuty(w, s.fan).1.None? && r == Ok(duty - 3) && s'.fan.OnSysfs? && s'.fan.hw.pwm == duty - 3
  {}

  /** The tolerance is used to the full by some node. */
  lemma WorstTick(s: LeaseState, thermal: Thermal) returns (w: World)
    requires Valid(s) && s.profile.Some? && s.fan.OnSysfs? && s.held && Keeps(thermal)
    requires Target(s, thermal) >= STICTION_DUTY
    ensures Good(w, s, thermal) && Register(w, s, thermal) == Target(s, thermal) - 3
  {
    var target := Target(s, thermal);
    w := LowNode(s.fan.hw.clock, target - 3);
    hide AfterWrite, AfterCurveTick, FloorDuty, LowNode;
    LowNodeSettlesLow(AfterCurveTick(s, thermal.Readable().value), target);
  }

  /** Where firmware is known to use a duty, every good tick in every world leaves the register
      at or above it exactly when the tick's target is three counts above it. The target is
      known before the tick; the margin alone provides two. */
  lemma DutyKeptExactly(s: LeaseState, thermal: Thermal, d: Duty)
    requires Valid(s) && s.profile.Some? && s.fan.OnSysfs? && s.held && Keeps(thermal)
    requires Target(s, thermal) >= STICTION_DUTY
    ensures (forall w: World :: Good(w, s, thermal) ==> Register(w, s, thermal) >= d) <==> Target(s, thermal) >= d + 3
  {
    hide Good, Register, Target;
    if Target(s, thermal) >= d + 3 {
      forall w: World | Good(w, s, thermal) ensures Register(w, s, thermal) >= d {
        GoodTickNearTarget(w, s, thermal);
      }
    } else {
      var w := WorstTick(s, thermal);
    }
  }

  lemma TargetAtLeastFloor(s: LeaseState, thermal: Thermal)
    requires Valid(s) && thermal.Readable().Some?
    ensures Target(s, thermal) >= LeaseFloor(s, thermal.Readable().value)
  {
    hide AfterCurveTick, FloorDuty;
  }

  /** The same over whole runs, of every non-zero duty the running process was told. */
  lemma ToldDutyKeptExactly(w0: World, s0: LeaseState, events: seq<Event>, thermal: Thermal, told: FloorEvent)
    requires Valid(s0) && s0.profile.Some? && s0.fan.OnSysfs? && s0.floor == FRESH
    requires Run(w0, s0, events).held && Keeps(thermal)
    requires Bucket(Finite(thermal.Readable().value)).Some? && told.duty > 0
    requires told in Told(events) && Covers(told, Bucket(Finite(thermal.Readable().value)).value)
    ensures
      var s := Run(w0, s0, events);
      (forall w: World :: Good(w, s, thermal) ==> Register(w, s, thermal) >= told.duty) <==>
        Target(s, thermal) >= told.duty + 3
  {
    hide Good, Register, Target, Run, Told, LearnAll, Covers, Bucket;
    var s := Run(w0, s0, events);
    FloorIsHistory(w0, s0, events);
    TableIsLoudest(Told(events), Bucket(Finite(thermal.Readable().value)).value);
    TargetAtLeastFloor(s, thermal);
    DutyKeptExactly(s, thermal, told.duty);
  }

  /** Where nothing is known, every good tick in every world turns the fan at least as fast as
      the model, up to its top speed, exactly when three counts under the target still does. */
  lemma ModelKeptExactly(s: LeaseState, thermal: Thermal)
    requires Valid(s) && s.profile.Some? && WellFormed(s.profile.value)
    requires s.fan.OnSysfs? && s.held && Keeps(thermal)
    requires ObservedDuty(s.floor.table, Finite(thermal.Readable().value)).None?
    ensures
      var p := s.profile.value;
      var rpm := InterpolateRpm(p, Finite(thermal.Readable().value));
      var speed := Min(rpm, Top(p)) as real;
      var spare := Max(Target(s, thermal) - 3, 0);
      && ((forall w: World :: Good(w, s, thermal) ==> Forward(p.dutyRpm, Register(w, s, thermal) as real) >= speed) <==>
            Forward(p.dutyRpm, spare as real) >= speed)
      && (0 < rpm < Top(p) ==>
            (Forward(p.dutyRpm, spare as real) >= speed <==> Target(s, thermal) >= DutyForRpm(p.dutyRpm, rpm) + 3))
      && (rpm == 0 ==> Forward(p.dutyRpm, spare as real) >= speed)
  {
    hide Good, Register, Target, Forward, InterpolateRpm, DutyForRpm;
    var p := s.profile.value;
    var rpm := InterpolateRpm(p, Finite(thermal.Readable().value));
    var speed := Min(rpm, Top(p)) as real;
    var spare: Duty := Max(Target(s, thermal) - 3, 0);
    TargetAtLeastFloor(s, thermal);
    if rpm == 0 {
      ForwardAtLeastRow(p.dutyRpm, spare as real, 0);
      forall w: World | Good(w, s, thermal) ensures Forward(p.dutyRpm, Register(w, s, thermal) as real) >= speed {
        ForwardAtLeastRow(p.dutyRpm, Register(w, s, thermal) as real, 0);
      }
    } else {
      if Forward(p.dutyRpm, spare as real) >= speed {
        forall w: World | Good(w, s, thermal) ensures Forward(p.dutyRpm, Register(w, s, thermal) as real) >= speed {
          GoodTickNearTarget(w, s, thermal);
          ForwardMonotone(p.dutyRpm, spare as real, Register(w, s, thermal) as real);
        }
      } else {
        var w := WorstTick(s, thermal);
      }
      if rpm < Top(p) { DutyForRpmIsAdjoint(p.dutyRpm, rpm, spare); }
    }
  }

  /** And however the node settles, one count more than the register shows turns the fan that
      fast, below the saturating end. */
  lemma NeverFarBelowModel(w: World, s: LeaseState, thermal: Thermal)
    requires Valid(s) && s.profile.Some? && WellFormed(s.profile.value)
    requires s.fan.OnSysfs? && s.held && Keeps(thermal) && Good(w, s, thermal)
    requires ObservedDuty(s.floor.table, Finite(thermal.Readable().value)).None?
    ensures
      var p := s.profile.value;
      var rpm := InterpolateRpm(p, Finite(thermal.Readable().value));
      DutyForRpm(p.dutyRpm, rpm) <= 253 ==>
        Forward(p.dutyRpm, (Register(w, s, thermal) + 1) as real) >= Min(rpm, Top(p)) as real
  {
    GoodTickNearTarget(w, s, thermal);
    TargetAtLeastFloor(s, thermal);
    hide Good, Register, Target, Forward, InterpolateRpm, DutyForRpm;
    var p := s.profile.value;
    var rpm := InterpolateRpm(p, Finite(thermal.Readable().value));
    var above := (Register(w, s, thermal) + 1) as real;
    if rpm == 0 {
      ForwardAtLeastRow(p.dutyRpm, above, 0);
    } else if DutyForRpm(p.dutyRpm, rpm) <= 253 {
      DutyForRpmSuffices(p.dutyRpm, rpm, above);
    }
  }
}
