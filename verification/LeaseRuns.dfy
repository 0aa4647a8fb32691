/** What the lease keeps over whole runs: every sequence of requests, curves, ticks,
    releases, suspends, resumes, learning and process deaths, in every world. */
module LeaseRuns {
  import opened Prelude
  import opened FanErrors
  import opened Board
  import opened FanScale
  import opened FloorModel
  import opened Floor
  import opened ThermalInputs
  import opened Lease
  import EcFan
  import SysfsFan
  import Curve
  import Engine

  datatype Event =
    | SetDuty(duty: Duty, thermal: Thermal)
    | SetCurve(curve: Curve.Drawn, thermal: Thermal)
    | Tick(thermal: Thermal)
    | Release
    | ReleaseNow
    | Sleep
    | Resume(thermal: Thermal)
    | Observe(from: Celsius, to: Celsius, duty: Duty, rising: bool)
    | RestoreFloor(observations: seq<(Celsius, Duty)>)
      /** The loop reads what firmware is doing with a fan it has. */
    | Look(target: Option<nat>, actual: Option<nat>)
      /** The fan's registers come to hold something else. */
    | Outside(registers: SysfsFan.Registers)
      /** The process died, possibly in the middle of an operation, leaving the EC holding
          `left`, or on sysfs those registers; a new one starts and reclaims the fan. */
    | Restart(left: Option<Percent>, registers: SysfsFan.Registers)

  function Step(w: World, s: LeaseState, e: Event): (s': LeaseState)
    requires Valid(s)
    ensures Valid(s') && s'.profile == s.profile && SameInterface(s.fan, s'.fan)
  {
    match e
    case SetDuty(duty, thermal) => AfterSetDuty(w, s, duty, thermal).0
    case SetCurve(curve, thermal) => AfterSetCurve(w, s, curve, thermal).0
    case Tick(thermal) => AfterEnforce(w, s, thermal).0
    case Release => AfterRelease(w, s).0
    case ReleaseNow => AfterReleaseNow(w, s).0
    case Sleep => AfterSleep(w, s).0
    case Resume(thermal) => AfterResume(w, s, thermal).0
    case Observe(from, to, duty, rising) => AfterObserve(s, from, to, duty, rising)
    case RestoreFloor(observations) => AfterRestoreFloor(s, observations)
    case Look(target, actual) => AfterFirmwareDuty(w, s, target, actual).0
    case Outside(registers) => AfterOutside(s, registers)
    case Restart(left, registers) => AfterRestart(w, AfterDeath(s, left, registers)).0
  }

  /** What a process that dies leaves in the hardware. */
  function AfterDeath(s: LeaseState, left: Option<Percent>, registers: SysfsFan.Registers): (s': LeaseState)
    ensures SameBoard(s, s')
  {
    if s.fan.OnEc? then s.(fan := OnEc(s.fan.ec.(fan := left))) else AfterOutside(s, registers)
  }

  function Run(w: World, s: LeaseState, events: seq<Event>): (s': LeaseState)
    requires Valid(s)
    ensures Valid(s') && s'.profile == s.profile && SameInterface(s.fan, s'.fan)
  {
    if events == [] then s
    else Step(w, Run(w, s, events[..|events| - 1]), events[|events| - 1])
  }

  /** A process starting on an EC board that may have been left holding the fan. */
  function Boot(w: World, profile: BoardProfile, left: Option<Percent>): (s: LeaseState)
    requires |profile.dutyRpm| > 0 && |profile.firmwareCurve| > 0
    ensures Valid(s) && s.profile == Some(profile) && s.fan.OnEc?
  {
    AfterReclaim(w, NewLease(Some(profile), OnEc(EcFan.EcState(left, false, 0)))).0
  }

  // -------------------------------------------------- who knows about the fan

  ghost predicate Believed(s: LeaseState) { s.fan.OnEc? && EcFan.Believes(s.fan.ec) }

  /** Every new process on this run finds the fan free, or its reclaim is acted on. */
  ghost predicate ReclaimsLand(w: World, s: LeaseState, events: seq<Event>)
    requires Valid(s) && s.fan.OnEc?
  {
    events == [] ||
    (var (before, e) := (events[..|events| - 1], events[|events| - 1]);
     && ReclaimsLand(w, s, before)
     && (e.Restart? ==> e.left.None? || w.ec.auto(Run(w, s, before).fan.ec.clock).acted))
  }

  /** On the EC a change keeps the belief, if acknowledged releases are acted on, and puts
      nothing on the wire that stalls. */
  ghost predicate KeepsWire(w: World, fan: Fan, fan': Fan) {
    fan.OnEc? ==>
      && fan'.OnEc?
      && (EcFan.Turns(fan.ec.fan) ==> EcFan.Turns(fan'.ec.fan))
      && (EcFan.HonestReleases(w.ec) && EcFan.Believes(fan.ec) ==> EcFan.Believes(fan'.ec))
  }

  lemma WriteKeepsWire(w: World, s: LeaseState, duty: Duty)
    ensures KeepsWire(w, s.fan, AfterWrite(w, s, duty).0.fan)
  {
    hide EcFan.AfterTakeManual, EcFan.AfterSetDuty, SysfsFan.AfterTakeManual, SysfsFan.AfterSetDuty;
    hide EcFan.Believes, EcFan.Turns;
    if s.fan.OnEc? {
      EcFan.WhatDutiesKeep(w.ec, s.fan.ec, duty);
    }
  }

  lemma ReleaseKeepsWire(w: World, s: LeaseState)
    ensures KeepsWire(w, s.fan, AfterReleaseNow(w, s).0.fan) && KeepsWire(w, s.fan, AfterRelease(w, s).0.fan)
  {
    hide SysfsFan.AfterReleaseBestEffort, SysfsFan.AfterRelease;
  }

  lemma SetDutyKeepsWire(w: World, s: LeaseState, duty: Duty, thermal: Thermal)
    requires Valid(s)
    ensures KeepsWire(w, s.fan, AfterSetDuty(w, s, duty, thermal).0.fan)
  {
    hide AfterWrite, FloorDuty;
    if thermal.Readable().Some? {
      WriteKeepsWire(w, s, Max(duty, Bound(s, thermal.Readable().value, thermal)));
    }
  }

  lemma TickKeepsWire(w: World, s: LeaseState, thermal: Thermal)
    requires Valid(s)
    ensures KeepsWire(w, s.fan, AfterEnforce(w, s, thermal).0.fan)
  {
    hide AfterWrite, AfterReleaseNow, AfterCurveTick, FloorDuty, SysfsFan.AfterReadDuty;
    ReleaseKeepsWire(w, s);
    if thermal.Readable().Some? {
      var s1 := AfterCurveTick(s, thermal.Readable().value);
      WriteKeepsWire(w, s1, Max(s1.requested, Bound(s1, thermal.Readable().value, thermal)));
    }
  }

  lemma StepKeepsWire(w: World, s: LeaseState, e: Event)
    requires Valid(s) && !e.Restart?
    ensures KeepsWire(w, s.fan, Step(w, s, e).fan)
  {
    hide AfterSetDuty, AfterReleaseNow, AfterRelease, AfterEnforce, Engine.AfterTick;
    match e
    case SetDuty(duty, thermal) => SetDutyKeepsWire(w, s, duty, thermal);
    case SetCurve(curve, thermal) =>
      if thermal.Readable().Some? {
        var wanted := Engine.AfterTick(Engine.Started(curve), Finite(thermal.Readable().value)).1;
        SetDutyKeepsWire(w, s, wanted, thermal);
      }
    case Tick(thermal) => TickKeepsWire(w, s, thermal);
    case Release => ReleaseKeepsWire(w, s);
    case ReleaseNow => ReleaseKeepsWire(w, s);
    case Sleep => ReleaseKeepsWire(w, s.(restoreDuty := s.requested, restorePending := true));
    case Resume(thermal) =>
      SetDutyKeepsWire(w, AfterCurveReset(s.(restorePending := false)), s.restoreDuty, thermal);
    case _ =>
  }

  /** On every run, lost replies and refused releases included, a fan the EC holds for us is
      a fan this process believes it holds. */
  lemma {:induction false} BeliefOnEveryRun(w: World, s: LeaseState, events: seq<Event>)
    requires Valid(s) && Believed(s) && EcFan.HonestReleases(w.ec) && ReclaimsLand(w, s, events)
    ensures Believed(Run(w, s, events))
  {
    hide Step;
    if events == [] {
    } else {
      var (before, e) := (events[..|events| - 1], events[|events| - 1]);
      BeliefOnEveryRun(w, s, before);
      if e.Restart? {
        RestartRecoversExactly(w, Run(w, s, before), e.left, e.registers);
      } else {
        StepKeepsWire(w, Run(w, s, before), e);
      }
    }
  }

  lemma RestartKeepsTurning(w: World, s: LeaseState, left: Option<Percent>, registers: SysfsFan.Registers)
    requires Valid(s) && s.fan.OnEc? && EcFan.Turns(left)
    ensures EcFan.Turns(Step(w, s, Restart(left, registers)).fan.ec.fan)
  {
    hide SysfsFan.AfterReleaseBestEffort, SysfsFan.AfterReadMode;
  }

  /** On every run in every world the EC holds silence or a percent that turns the fan: duties
      that stall are requested, and never reach the wire. */
  lemma {:induction false} NothingEverStalls(w: World, s: LeaseState, events: seq<Event>)
    requires Valid(s) && s.fan.OnEc? && EcFan.Turns(s.fan.ec.fan)
    requires forall k :: 0 <= k < |events| && events[k].Restart? ==> EcFan.Turns(events[k].left)
    ensures EcFan.Turns(Run(w, s, events).fan.ec.fan)
  {
    hide Step, EcFan.Turns;
    if events == [] {
    } else {
      var (before, e) := (events[..|events| - 1], events[|events| - 1]);
      NothingEverStalls(w, s, before);
      if e.Restart? {
        RestartKeepsTurning(w, Run(w, s, before), e.left, e.registers);
      } else {
        StepKeepsWire(w, Run(w, s, before), e);
      }
    }
  }

  /** A process death at any point is recovered exactly when the new process finds the fan
      free or its reclaim is acted on. */
  lemma RestartRecoversExactly(w: World, s: LeaseState, left: Option<Percent>, registers: SysfsFan.Registers)
    requires Valid(s) && s.fan.OnEc?
    ensures Believed(Step(w, s, Restart(left, registers))) <==> (left.None? || w.ec.auto(s.fan.ec.clock).acted)
  {
    hide SysfsFan.AfterReleaseBestEffort, SysfsFan.AfterReadMode;
  }

  // ------------------------------------------------ never quieter than firmware

  /** A percent that turns the fan at least as fast as firmware would at `celsius`: no
      slower than anything learned there, else than the model, up to the fan's top speed. */
  ghost predicate Dominates(p: BoardProfile, t: Table, celsius: real, percent: Percent)
    requires |p.dutyRpm| > 0 && |p.firmwareCurve| > 0
  {
    var learned := ObservedDuty(t, Finite(celsius));
    if learned.Some? then ScaledBack(percent) >= learned.value as real
    else Forward(p.dutyRpm, ScaledBack(percent)) >= Min(InterpolateRpm(p, Finite(celsius)), Top(p)) as real
  }

  lemma FloorDominates(p: BoardProfile, t: Table, celsius: real, duty: Duty)
    requires WellFormed(p) && duty >= FloorDuty(p, t, Finite(celsius))
    ensures Dominates(p, t, celsius, DutyToPercent(duty))
  {
    var learned := ObservedDuty(t, Finite(celsius));
    if learned.None? {
      ModelledFloorOnTheWire(p, Finite(celsius), duty);
    } else if learned.value > 0 {
      MarginSurvivesTheWire(learned.value, duty);
    }
  }

  /** Firmware owns the fan, or it is held at a percent that dominates firmware. */
  ghost predicate NeverQuieter(s: LeaseState, celsius: real)
    requires s.fan.OnEc? && s.profile.Some? && WellFormed(s.profile.value)
  {
    s.fan.ec.fan.Some? ==> Dominates(s.profile.value, s.floor.table, celsius, s.fan.ec.fan.value)
  }

  /** What the lease keeps on an EC board whose releases are accepted: it knows what it
      holds, and holds nothing it has let go of. */
  ghost predicate Controlled(s: LeaseState) {
    && Valid(s) && Believed(s)
    && s.profile.Some? && WellFormed(s.profile.value)
    && (!s.held ==> s.fan.ec.fan.None?)
  }

  ghost predicate Benign(w: World) { EcFan.ReleasesAccepted(w.ec) && EcFan.HonestDuties(w.ec) }

  /** One write through the lease leaves the EC at exactly that duty's percent, or the fan
      with firmware. */
  lemma WriteOrRelease(w: World, s: LeaseState, duty: Duty)
    requires Controlled(s) && Benign(w)
    ensures
      var (s', r) := AfterWrite(w, s, duty);
      && Controlled(s') && s'.floor == s.floor
      && (if r.Ok? then s'.held && s'.fan.ec.fan == Some(DutyToPercent(duty)) else s'.fan.ec.fan.None?)
  {
    EcFan.DutyOrFirmware(w.ec, s.fan.ec, duty);
    EcFan.DutyOrFirmware(w.ec, s.fan.ec.(manual := true), duty);
  }

  /** A release that cannot fail leaves the fan with firmware. */
  lemma ReleaseFrees(w: World, s: LeaseState)
    requires Controlled(s) && Benign(w)
    ensures Controlled(AfterReleaseNow(w, s).0) && AfterReleaseNow(w, s).0.fan.ec.fan.None?
    ensures Controlled(AfterRelease(w, s).0) && AfterRelease(w, s).0.fan.ec.fan.None?
  {
    hide SysfsFan.AfterReleaseBestEffort, SysfsFan.AfterRelease;
  }

  lemma SetDutyNeverQuieter(w: World, s: LeaseState, duty: Duty, thermal: Thermal)
    requires Controlled(s) && Benign(w)
    ensures
      var (s', r) := AfterSetDuty(w, s, duty, thermal);
      && Controlled(s')
      && (r.Ok? ==> thermal.Readable().Some? && NeverQuieter(s', thermal.Readable().value))
      && (r.Ok? ==> s'.fan.ec.fan == Some(DutyToPercent(r.value.target)) && r.value.target >= duty)
  {
    var celsius := thermal.Readable();
    if celsius.Some? {
      var target := Max(duty, Bound(s, celsius.value, thermal));
      WriteOrRelease(w, s, target);
      FloorDominates(s.profile.value, s.floor.table, celsius.value, target);
    }
  }

  lemma SetCurveNeverQuieter(w: World, s: LeaseState, curve: Curve.Drawn, thermal: Thermal)
    requires Controlled(s) && Benign(w)
    ensures
      var (s', r) := AfterSetCurve(w, s, curve, thermal);
      && Controlled(s')
      && (r.Ok? ==> thermal.Readable().Some? && NeverQuieter(s', thermal.Readable().value))
  {
    if thermal.Readable().Some? {
      var wanted := Engine.AfterTick(Engine.Started(curve), Finite(thermal.Readable().value)).1;
      SetDutyNeverQuieter(w, s, wanted, thermal);
    }
  }

  /** After every enforcement tick, whatever failed, either firmware owns the fan or what
      the EC holds dominates firmware at the temperature of the tick. */
  lemma TickNeverQuieter(w: World, s: LeaseState, thermal: Thermal)
    requires Controlled(s) && Benign(w)
    ensures
      var s' := AfterEnforce(w, s, thermal).0;
      && Controlled(s')
      && (thermal.Readable().None? ==> s'.fan.ec.fan.None?)
      && (thermal.Readable().Some? ==> NeverQuieter(s', thermal.Readable().value))
  {
    hide AfterWrite, AfterReleaseNow, AfterCurveTick, FloorDuty, Dominates;
    ReleaseFrees(w, s);
    var celsius := thermal.Readable();
    if s.held && celsius.Some? {
      var s1 := AfterCurveTick(s, celsius.value);
      var target := Max(s1.requested, Bound(s1, celsius.value, thermal));
      WriteOrRelease(w, s1, target);
      FloorDominates(s.profile.value, s.floor.table, celsius.value, target);
    }
  }

  lemma RestartControls(w: World, s: LeaseState, left: Option<Percent>, registers: SysfsFan.Registers)
    requires Controlled(s) && Benign(w)
    ensures Controlled(Step(w, s, Restart(left, registers)))
  {
    hide SysfsFan.AfterReleaseBestEffort, SysfsFan.AfterReadMode;
  }

  lemma StepKeepsControl(w: World, s: LeaseState, e: Event)
    requires Controlled(s) && Benign(w)
    ensures Controlled(Step(w, s, e))
  {
    hide AfterSetDuty, AfterReleaseNow, AfterRelease, AfterEnforce, Engine.AfterTick, AfterSetCurve;
    ReleaseFrees(w, s);
    match e
    case Sleep => ReleaseFrees(w, s.(restoreDuty := s.requested, restorePending := true));
    case Restart(left, registers) => RestartControls(w, s, left, registers);
    case SetDuty(duty, thermal) => SetDutyNeverQuieter(w, s, duty, thermal);
    case SetCurve(curve, thermal) => SetCurveNeverQuieter(w, s, curve, thermal);
    case Tick(thermal) => TickNeverQuieter(w, s, thermal);
    case Resume(thermal) =>
      if s.restorePending {
        SetDutyNeverQuieter(w, AfterCurveReset(s.(restorePending := false)), s.restoreDuty, thermal);
      }
    case _ =>
  }

  lemma {:induction false} RunKeepsControl(w: World, s: LeaseState, events: seq<Event>)
    requires Controlled(s) && Benign(w)
    ensures Controlled(Run(w, s, events))
  {
    if events == [] {
    } else {
      var before := events[..|events| - 1];
      RunKeepsControl(w, s, before);
      StepKeepsControl(w, Run(w, s, before), events[|events| - 1]);
    }
  }

  /** What the floor has been told on a run, since the process that is running started. */
  function Told(events: seq<Event>): seq<FloorEvent> {
    if events == [] then []
    else
      var (before, e) := (events[..|events| - 1], events[|events| - 1]);
      match e
      case Observe(from, to, duty, rising) => Told(before) + [Observed(from, to, duty, rising)]
      case RestoreFloor(observations) => Told(before) + AsEvents(observations)
      case Restart(_, _) => []
      case _ => Told(before)
  }

  function AsEvents(observations: seq<(Celsius, Duty)>): seq<FloorEvent> {
    seq(|observations|, i requires 0 <= i < |observations| => Restored(observations[i].0, observations[i].1))
  }

  lemma {:induction false} LearnAppend(s: FloorState, log: seq<FloorEvent>, observations: seq<(Celsius, Duty)>)
    ensures LearnAll(s, log + AsEvents(observations)) == AfterRestore(LearnAll(s, log), observations)
  {
    if observations == [] {
      assert log + AsEvents(observations) == log;
    } else {
      var n := |observations| - 1;
      LearnAppend(s, log, observations[..n]);
      var all := log + AsEvents(observations);
      assert all[..|all| - 1] == log + AsEvents(observations[..n]);
    }
  }

  /** The table a run ends with is what its history teaches. */
  lemma {:induction false} FloorIsHistory(w: World, s: LeaseState, events: seq<Event>)
    requires Valid(s) && s.floor == FRESH
    ensures Run(w, s, events).floor == LearnAll(FRESH, Told(events))
  {
    hide AfterSetDuty, AfterSetCurve, AfterEnforce, AfterRelease, AfterReleaseNow;
    hide AfterSleep, AfterResume, AfterRestart;
    hide AfterSpan, AfterRestore;
    if events == [] {
    } else {
      var (before, e) := (events[..|events| - 1], events[|events| - 1]);
      FloorIsHistory(w, s, before);
      if e.Observe? {
        var log := Told(events);
        assert log[..|log| - 1] == Told(before);
      } else if e.RestoreFloor? {
        LearnAppend(FRESH, Told(before), e.observations);
      }
    }
  }

  /** The promise, end to end. Start a process on any well-formed EC board, whatever the last
      one left behind, and run it through any events in any world whose releases are
      accepted. After the next tick either firmware owns the fan, or the percent the EC
      holds is at least every duty the running process was told firmware uses there, turns
      the fan at least as fast as every firmware target among them, and where it was told
      nothing turns it at least as fast as the model, up to the fan's own top speed. */
  lemma NeverQuieterThanFirmware(w: World, p: BoardProfile, left: Option<Percent>, events: seq<Event>, thermal: Thermal)
    requires WellFormed(p) && Benign(w)
    ensures
      var s := AfterEnforce(w, Run(w, Boot(w, p, left), events), thermal).0;
      var celsius := thermal.Readable();
      s.fan.OnEc? && (s.fan.ec.fan.Some? ==>
        celsius.Some? && HonoursHistory(p, Told(events), celsius.value, s.fan.ec.fan.value))
  {
    var s0 := Boot(w, p, left);
    var s1 := Run(w, s0, events);
    var s := AfterEnforce(w, s1, thermal).0;
    RunKeepsControl(w, s0, events);
    TickNeverQuieter(w, s1, thermal);
    FloorIsHistory(w, s0, events);
    if s.fan.ec.fan.Some? {
      TickKeepsFloor(w, s1, thermal);
      DominanceHonoursHistory(p, Told(events), thermal.Readable().value, s.fan.ec.fan.value);
    }
  }

  /** The same after every request that is accepted: a duty set by hand, a curve, or the
      request re-issued on a resume. */
  lemma AcceptedRequestsNeverQuieter(w: World, p: BoardProfile, left: Option<Percent>, events: seq<Event>,
                                     duty: Duty, curve: Curve.Drawn, thermal: Thermal)
    requires WellFormed(p) && Benign(w)
    ensures
      var s := Run(w, Boot(w, p, left), events);
      && HonouredIfOk(p, events, thermal, AfterSetDuty(w, s, duty, thermal))
      && HonouredIfOk(p, events, thermal, AfterSetCurve(w, s, curve, thermal))
      && (var (s', r) := AfterResume(w, s, thermal); r.Some? ==> HonouredIfOk(p, events, thermal, (s', r.value)))
  {
    var s0 := Boot(w, p, left);
    var s := Run(w, s0, events);
    RunKeepsControl(w, s0, events);
    FloorIsHistory(w, s0, events);
    hide AfterSetDuty, Boot, Run, Dominates, HonoursHistory, LearnAll;
    SetDutyHonours(w, s, p, Told(events), duty, thermal);
    if thermal.Readable().Some? {
      var wanted := Engine.AfterTick(Engine.Started(curve), Finite(thermal.Readable().value)).1;
      SetDutyHonours(w, s, p, Told(events), wanted, thermal);
    }
    if s.restorePending {
      SetDutyHonours(w, AfterCurveReset(s.(restorePending := false)), p, Told(events), s.restoreDuty, thermal);
    }
  }

  ghost predicate HonouredIfOk(p: BoardProfile, events: seq<Event>, thermal: Thermal,
                               r: (LeaseState, Result<Applied, LeaseError>))
    requires |p.dutyRpm| > 0 && |p.firmwareCurve| > 0
  {
    r.1.Ok? ==>
      && r.0.fan.OnEc? && r.0.fan.ec.fan.Some? && thermal.Readable().Some?
      && HonoursHistory(p, Told(events), thermal.Readable().value, r.0.fan.ec.fan.value)
  }

  lemma SetDutyHonours(w: World, s: LeaseState, p: BoardProfile, log: seq<FloorEvent>, duty: Duty, thermal: Thermal)
    requires Controlled(s) && Benign(w) && s.profile == Some(p) && s.floor == LearnAll(FRESH, log)
    ensures
      var (s', r) := AfterSetDuty(w, s, duty, thermal);
      r.Ok? ==>
        && s'.fan.ec.fan.Some? && thermal.Readable().Some?
        && HonoursHistory(p, log, thermal.Readable().value, s'.fan.ec.fan.value)
  {
    hide AfterSetDuty, Dominates, HonoursHistory, LearnAll;
    SetDutyNeverQuieter(w, s, duty, thermal);
    var (s', r) := AfterSetDuty(w, s, duty, thermal);
    if r.Ok? {
      DominanceHonoursHistory(p, log, thermal.Readable().value, s'.fan.ec.fan.value);
    }
  }

  lemma TickKeepsFloor(w: World, s: LeaseState, thermal: Thermal)
    requires Valid(s)
    ensures AfterEnforce(w, s, thermal).0.floor == s.floor
  {}

  /** No slower than anything told about this temperature, and than the model where nothing
      was told. */
  ghost predicate HonoursHistory(p: BoardProfile, log: seq<FloorEvent>, celsius: real, percent: Percent)
    requires |p.dutyRpm| > 0 && |p.firmwareCurve| > 0
  {
    var bucket := Bucket(Finite(celsius));
    && (forall e :: e in log && bucket.Some? && Covers(e, bucket.value) ==> ScaledBack(percent) >= e.duty as real)
    && (forall e, rpm: Rpm ::
          e in log && bucket.Some? && Covers(e, bucket.value) && e.duty == DutyForRpm(p.dutyRpm, rpm) ==>
          Forward(p.dutyRpm, ScaledBack(percent)) >= Min(rpm, Top(p)) as real)
    && ((forall e :: e in log ==> bucket.None? || !Covers(e, bucket.value)) ==>
          Forward(p.dutyRpm, ScaledBack(percent)) >= Min(InterpolateRpm(p, Finite(celsius)), Top(p)) as real)
  }

  lemma DominanceHonoursHistory(p: BoardProfile, log: seq<FloorEvent>, celsius: real, percent: Percent)
    requires WellFormed(p) && Dominates(p, LearnAll(FRESH, log).table, celsius, percent)
    ensures HonoursHistory(p, log, celsius, percent)
  {
    var bucket := Bucket(Finite(celsius));
    if bucket.Some? {
      TableIsLoudest(log, bucket.value);
      forall e, rpm: Rpm | e in log && Covers(e, bucket.value) && e.duty == DutyForRpm(p.dutyRpm, rpm)
        ensures Forward(p.dutyRpm, ScaledBack(percent)) >= Min(rpm, Top(p)) as real
      {
        DutyForRpmSuffices(p.dutyRpm, rpm, ScaledBack(percent));
      }
    }
  }

  // ------------------------------------------------------ what is never taken

  /** A board whose fan was not measured is never driven: every request is refused, and
      whatever happens the lease is never held. */
  lemma {:induction false} UnmeasuredBoardIsNeverHeld(w: World, s: LeaseState, events: seq<Event>)
    requires Valid(s) && s.profile.None? && !s.held
    ensures !Run(w, s, events).held
  {
    hide Step;
    if events == [] {
    } else {
      var n := |events| - 1;
      UnmeasuredBoardIsNeverHeld(w, s, events[..n]);
      UnmeasuredStep(w, Run(w, s, events[..n]), events[n]);
    }
  }

  lemma UnmeasuredStep(w: World, s: LeaseState, e: Event)
    requires Valid(s) && s.profile.None? && !s.held
    ensures !Step(w, s, e).held
  {
    hide AfterReleaseNow, AfterFanRelease, AfterReclaim, AfterHold, FloorDuty, Engine.AfterTick, AfterDuty;
  }

  lemma UnmeasuredRequestIsRefused(w: World, s: LeaseState, duty: Duty, curve: Curve.Drawn, thermal: Thermal)
    requires Valid(s) && s.profile.None?
    ensures AfterSetDuty(w, s, duty, thermal).0 == s && AfterSetDuty(w, s, duty, thermal).1.Err?
    ensures AfterSetCurve(w, s, curve, thermal).0 == s && AfterSetCurve(w, s, curve, thermal).1.Err?
    ensures AfterWrite(w, s, duty) == (s, Err(UnmeasuredBoard))
  {
    hide FloorDuty, Engine.AfterTick;
  }

  /** A correction reports where the fan was, as the hardware shows it or else as it was last
      applied, where it settled, and what bounded it. */
  lemma CorrectionIsReported(w: World, s: LeaseState, thermal: Thermal)
    requires Valid(s) && s.held
    ensures
      var (s', outcome) := AfterEnforce(w, s, thermal);
      outcome.Some? && outcome.value.Corrected? ==>
        && thermal.Readable() == Some(outcome.value.celsius)
        && outcome.value.floor == Bound(s, outcome.value.celsius, thermal)
        && (var shown := AfterDuty(w, s.fan).1;
            outcome.value.from == if shown.Some? then shown.value else s.applied)
        && (s'.fan.OnEc? && EcFan.HonestDuties(w.ec) ==>
              s'.fan.ec.fan.Some? && outcome.value.to == PercentToDuty(s'.fan.ec.fan.value))
        && (s'.fan.OnSysfs? ==> outcome.value.to == Min(s'.fan.hw.pwm, 255))
  {
    hide AfterReleaseNow, AfterCurveTick, FloorDuty, EcFan.AfterTakeManual, EcFan.AfterSetDuty, AfterDuty;
    hide AfterWrite;
    if thermal.Readable().Some? {
      var s1 := AfterCurveTick(s, thermal.Readable().value);
      var target := Max(s1.requested, Bound(s1, thermal.Readable().value, thermal));
      WriteReports(w, s1.(fan := AfterDuty(w, s1.fan).0), target);
    }
  }

  lemma WriteReports(w: World, s: LeaseState, duty: Duty)
    ensures
      var (s', r) := AfterWrite(w, s, duty);
      r.Ok? ==>
        && (s'.fan.OnEc? && EcFan.HonestDuties(w.ec) ==>
              s'.fan.ec.fan.Some? && r.value == PercentToDuty(s'.fan.ec.fan.value))
        && (s'.fan.OnSysfs? ==> r.value == Min(s'.fan.hw.pwm, 255))
  {}

  /** A release forgets the curve, the request and any pending restore, whether or not it
      works, and says when it did not. */
  lemma ReleaseForgetsEverything(w: World, s: LeaseState)
    ensures
      var (s', e) := AfterRelease(w, s);
      && s'.curve.None? && s'.requested == 0 && s'.applied == 0 && !s'.restorePending
      && (!s.fan.NoFan? ==> !s'.held)
      && (s.fan.NoFan? ==> e.Some? && s'.held == s.held)
      && (s'.fan.OnSysfs? && e.None? ==> s'.fan.hw.enable == PWM_AUTO)
      && (s'.fan.OnEc? ==> (e.None? <==> w.ec.auto(s.fan.ec.clock).ok))
  {}

  /** A target of zero on a fan that is plainly turning says nothing of firmware, and neither
      does a target or a speed that cannot be read; any other target is the least duty that
      reaches it. */
  lemma DeadRegisterSaysNothing(w: World, s: LeaseState, target: Option<nat>, actual: Option<nat>)
    requires Valid(s)
    ensures
      var duty := AfterFirmwareDuty(w, s, target, actual).1;
      AfterDuty(w, s.fan).1.None? ==>
        if target.None? || actual.None? || (target.value == 0 && actual.value > 500) then duty.None?
        else duty == Some(DutyForRpm(FloorProfile(s.profile).dutyRpm, Min(target.value, 65535)))
    ensures AfterDuty(w, s.fan).1.Some? ==> AfterFirmwareDuty(w, s, target, actual).1 == AfterDuty(w, s.fan).1
  {
    hide AfterDuty, DutyForRpm;
  }

  // -------------------------------------------------- requests that cannot turn

  /** What bounds a request is the louder of the firmware floor at the reading and the battery's
      demand at its own; a battery that is not there demands nothing. */
  lemma BoundIsTheLouder(s: LeaseState, celsius: real, thermal: Thermal)
    requires Valid(s)
    ensures
      var bound := Bound(s, celsius, thermal);
      var floor := FloorDuty(FloorProfile(s.profile), s.floor.table, Finite(celsius));
      var battery := thermal.batteryCelsius;
      && bound >= floor && (battery.None? ==> bound == floor)
      && (battery.Some? ==>
            var demand := thermal.battery.FloorDuty(battery.value);
            bound >= demand && (bound == floor || bound == demand))
  {
    hide FloorDuty;
  }

  lemma BoundIsTurnable(s: LeaseState, celsius: real, thermal: Thermal)
    requires Valid(s)
    ensures Bound(s, celsius, thermal) == 0 || Bound(s, celsius, thermal) >= STICTION_DUTY
  {}

  /** A held tick on the EC is refused for its duty exactly when the bounded request falls in
      the stalling band, which is when nothing bounds it and the request itself does; the fan
      then goes back to firmware. */
  lemma TickRefusedExactly(w: World, s: LeaseState, thermal: Thermal)
    requires Controlled(s) && s.held && EcFan.ReleasesAccepted(w.ec)
    requires thermal.Readable().Some? && !thermal.BatteryExceeded()
    requires !thermal.ceiling.ExceededBy(Finite(thermal.Readable().value))
    ensures
      var celsius := thermal.Readable().value;
      var requested := AfterCurveTick(s, celsius).requested;
      var (target, bound) := (Max(requested, Bound(s, celsius, thermal)), Bound(s, celsius, thermal));
      var (s', outcome) := AfterEnforce(w, s, thermal);
      && (outcome == Some(Failed(FanFailed(DutyCannotTurnFan(target)))) <==> 0 < target < STICTION_DUTY)
      && (0 < target < STICTION_DUTY <==> bound == 0 && 0 < requested < STICTION_DUTY)
      && (0 < target < STICTION_DUTY ==> s'.fan.ec.fan.None?)
  {
    hide AfterCurveTick, FloorDuty;
    var celsius := thermal.Readable().value;
    var s1 := AfterCurveTick(s, celsius);
    BoundIsTurnable(s, celsius, thermal);
    WriteRefusedExactly(w, s1, Max(s1.requested, Bound(s1, celsius, thermal)));
  }

  lemma WriteRefusedExactly(w: World, s: LeaseState, duty: Duty)
    requires Controlled(s) && EcFan.ReleasesAccepted(w.ec)
    ensures
      var (s', r) := AfterWrite(w, s, duty);
      && (r == Err(FanFailed(DutyCannotTurnFan(duty))) <==> 0 < duty < STICTION_DUTY)
      && (0 < duty < STICTION_DUTY ==> s'.fan.ec.fan.None?)
  {}

  // ------------------------------------------------------ too hot to be holding

  /** The cut-outs, exactly: a readable request is refused as too hot from the board's cut-out
      up, and as battery-hot from the battery's, and a held fan is let go of at the same
      temperatures and at no others. */
  lemma CutOutsDecide(w: World, s: LeaseState, thermal: Thermal, crit: Option<Celsius>, batteryCrit: Option<Celsius>,
                      duty: Duty, curve: Curve.Drawn)
    requires Valid(s) && thermal.Readable().Some?
    requires thermal.ceiling == CeilingFromCrit(crit) && thermal.battery == BatteryGuardFromCrit(batteryCrit)
    ensures
      var tooHot := thermal.Readable().value >= CutOut(crit);
      var battery := thermal.batteryCelsius;
      var batteryHot := battery.Some? && battery.value.Finite? && battery.value.celsius >= BatteryCutOut(batteryCrit);
      && (AfterSetDuty(w, s, duty, thermal).1 == Err(AboveCeiling) <==> tooHot)
      && (AfterSetDuty(w, s, duty, thermal).1 == Err(BatteryTooHot) <==> !tooHot && batteryHot)
      && (AfterSetCurve(w, s, curve, thermal).1 == Err(AboveCeiling) <==> tooHot)
      && (AfterSetCurve(w, s, curve, thermal).1 == Err(BatteryTooHot) <==> !tooHot && batteryHot)
      && (s.held ==>
            var (s', outcome) := AfterEnforce(w, s, thermal);
            && (outcome.Some? && outcome.value.ReleasedTooHot? <==> tooHot)
            && (outcome.Some? && outcome.value.ReleasedBatteryHot? <==> !tooHot && batteryHot)
            && (tooHot || batteryHot ==> !s'.held)
            && !(outcome.Some? && outcome.value.ReleasedNoSensor?))
  {
    hide AfterReleaseNow, AfterHold, AfterCurveTick, FloorDuty, CutOut, BatteryCutOut;
    CutOutsAreExact(crit, batteryCrit, thermal.Readable().value);
    if thermal.batteryCelsius.Some? && thermal.batteryCelsius.value.Finite? {
      CutOutsAreExact(crit, batteryCrit, thermal.batteryCelsius.value.celsius);
    } else {
      CutOutsAreExact(crit, batteryCrit, 0.0);
    }
    WriteNeverTooHot(w, s, duty);
    HoldReleasesNothing(w, AfterCurveTick(s, thermal.Readable().value), thermal.Readable().value, thermal);
    SetDutyErrors(w, s, duty, thermal);
    SetDutyErrors(w, s, Engine.AfterTick(Engine.Started(curve), Finite(thermal.Readable().value)).1, thermal);
  }

  lemma WriteNeverTooHot(w: World, s: LeaseState, duty: Duty)
    ensures AfterWrite(w, s, duty).1 != Err(AboveCeiling) && AfterWrite(w, s, duty).1 != Err(BatteryTooHot)
    ensures AfterWrite(w, s, duty).1 != Err(NoTemperature)
  {
    hide AfterMode, AfterTake, AfterChange;
  }

  lemma SetDutyErrors(w: World, s: LeaseState, duty: Duty, thermal: Thermal)
    requires Valid(s) && thermal.Readable().Some?
    ensures
      var e := AfterSetDuty(w, s, duty, thermal).1;
      && (e == Err(AboveCeiling) <==> thermal.ceiling.ExceededBy(Finite(thermal.Readable().value)))
      && (e == Err(BatteryTooHot) <==>
            !thermal.ceiling.ExceededBy(Finite(thermal.Readable().value)) && thermal.BatteryExceeded())
  {
    hide AfterWrite, FloorDuty;
    WriteNeverTooHot(w, s, Max(duty, Bound(s, thermal.Readable().value, thermal)));
  }

  lemma HoldReleasesNothing(w: World, s: LeaseState, celsius: real, thermal: Thermal)
    requires Valid(s)
    ensures
      var outcome := AfterHold(w, s, celsius, thermal).1;
      outcome.Some? ==> outcome.value.Corrected? || outcome.value.Failed?
  {
    hide AfterWrite, AfterDuty, FloorDuty;
  }

  /** With no reading nothing is accepted, and a held fan is let go of. */
  lemma BlindMachineIsReleased(w: World, s: LeaseState, thermal: Thermal, duty: Duty, curve: Curve.Drawn)
    requires Valid(s) && thermal.Readable().None?
    ensures AfterSetDuty(w, s, duty, thermal) == (s, Err(NoTemperature))
    ensures AfterSetCurve(w, s, curve, thermal) == (s, Err(NoTemperature))
    ensures
      var (s', outcome) := AfterEnforce(w, s, thermal);
      !s'.held && (s.held ==> outcome.Some? && outcome.value.ReleasedNoSensor?)
  {
    hide AfterReleaseNow;
  }

  /** Whatever critical points the sensors report, plausible or not, at 100 degrees, or with
      the battery at 78, no request is accepted and a held fan is let go of. */
  lemma HotMachineIsReleased(w: World, s: LeaseState, thermal: Thermal,
                             crit: Option<Celsius>, batteryCrit: Option<Celsius>, duty: Duty, curve: Curve.Drawn)
    requires Valid(s)
    requires thermal.ceiling == CeilingFromCrit(crit) && thermal.battery == BatteryGuardFromCrit(batteryCrit)
    requires
      || (thermal.Readable().Some? && thermal.Readable().value >= 100.0)
      || (exists b: real :: b >= 78.0 && thermal.batteryCelsius == Some(Finite(b)))
    ensures AfterSetDuty(w, s, duty, thermal).1.Err? && AfterSetCurve(w, s, curve, thermal).1.Err?
    ensures
      var (s', outcome) := AfterEnforce(w, s, thermal);
      !s'.held && (s.held ==> outcome.Some? && !outcome.value.Corrected? && !outcome.value.Failed?)
  {
    hide AfterWrite, AfterReleaseNow, AfterHold, FloorDuty;
    ThresholdsAreCapped(crit, batteryCrit);
  }

  // ------------------------------------------------------------- no ratchet

  /** Ticks and reads of the fan, and whatever else happens to its registers in between. */
  predicate Undirected(e: Event) { e.Tick? || e.Look? || e.Outside? }

  lemma {:induction false} TicksKeepRequest(w: World, s: LeaseState, events: seq<Event>)
    requires Valid(s) && s.curve.None? && forall e :: e in events ==> Undirected(e)
    ensures
      var s' := Run(w, s, events);
      s'.requested == s.requested && s'.floor == s.floor && s'.curve.None?
  {
    hide AfterEnforce, AfterFirmwareDuty;
    if events == [] {
    } else {
      var n := |events| - 1;
      assert events[n] in events && forall e :: e in events[..n] ==> e in events;
      TicksKeepRequest(w, s, events[..n]);
    }
  }

  /** A pinned fan never ratchets: after any ticks on either backend, whatever firmware or
      anything else does to the registers in between, a tick that releases and fails nothing
      leaves the applied duty a function of the original request, the floor table and the
      current readings alone. */
  lemma NeverRatchets(w: World, s: LeaseState, events: seq<Event>, thermal: Thermal)
    requires Valid(s) && s.curve.None? && forall e :: e in events ==> Undirected(e)
    ensures
      var before := Run(w, s, events);
      var (after, outcome) := AfterEnforce(w, before, thermal);
      before.held && (outcome.None? || outcome.value.Corrected?) ==>
        && thermal.Readable().Some?
        && after.applied == Max(s.requested, Bound(s, thermal.Readable().value, thermal))
        && after.held
  {
    hide AfterHold, AfterReleaseNow, FloorDuty, Run;
    TicksKeepRequest(w, s, events);
    var before := Run(w, s, events);
    if before.held && thermal.Readable().Some? {
      HoldApplies(w, before, thermal.Readable().value, thermal);
    }
  }

  /** The request a duty set by hand leaves behind is the one that was asked for, whatever it was
      raised to; one that is refused leaves none. */
  lemma RequestIsRemembered(w: World, s: LeaseState, duty: Duty, thermal: Thermal)
    requires Valid(s)
    ensures
      var (s', r) := AfterSetDuty(w, s, duty, thermal);
      && (r.Ok? ==> s'.requested == duty && s'.held && r.value.requested == duty && s'.applied == r.value.target)
      && (r.Ok? ==>
            && thermal.Readable().Some?
            && r.value.floor == Bound(s, thermal.Readable().value, thermal)
            && r.value.target == Max(duty, r.value.floor))
      && (r.Err? ==> s'.requested == s.requested && s'.applied == s.applied && s'.held == s.held)
      && s'.curve == s.curve && s'.restorePending == s.restorePending && s'.restoreDuty == s.restoreDuty
  {
    hide AfterMode, AfterTake, AfterChange, FloorDuty;
  }

  /** From the request on: after an accepted duty with no curve, whatever ticks and changes of
      the registers follow, every good tick of a held fan applies that duty or what bounds it
      there and then, and a suspend keeps that duty, to ask for it again on resume. */
  lemma PinnedDutyStands(w: World, s: LeaseState, duty: Duty, asked: Thermal, events: seq<Event>,
                         thermal: Thermal, woken: Thermal)
    requires Valid(s) && s.curve.None? && AfterSetDuty(w, s, duty, asked).1.Ok?
    requires forall e :: e in events ==> Undirected(e)
    ensures
      var before := Run(w, AfterSetDuty(w, s, duty, asked).0, events);
      var (after, outcome) := AfterEnforce(w, before, thermal);
      before.held ==>
        && (outcome.None? || outcome.value.Corrected? ==>
              && thermal.Readable().Some? && after.held
              && after.applied == Max(duty, Bound(s, thermal.Readable().value, thermal)))
        && (var (asleep, kept) := AfterSleep(w, before);
            var (_, r) := AfterResume(w, asleep, woken);
            kept == Some(duty) && r.Some? && (r.value.Ok? ==> r.value.value.requested == duty))
  {
    hide AfterEnforce, AfterSetDuty, FloorDuty, Run, AfterReleaseNow;
    RequestIsRemembered(w, s, duty, asked);
    var s1 := AfterSetDuty(w, s, duty, asked).0;
    NeverRatchets(w, s1, events, thermal);
    TicksKeepRequest(w, s1, events);
    var before := Run(w, s1, events);
    var asleep := AfterSleep(w, before).0;
    if before.held {
      RequestIsRemembered(w, AfterCurveReset(asleep.(restorePending := false)), duty, woken);
    }
  }

  /** Holding without a failure leaves exactly the bounded request applied. */
  lemma HoldApplies(w: World, s: LeaseState, celsius: real, thermal: Thermal)
    requires Valid(s) && s.held
    ensures
      var (s', outcome) := AfterHold(w, s, celsius, thermal);
      outcome.None? || outcome.value.Corrected? ==>
        s'.applied == Max(s.requested, Bound(s, celsius, thermal)) && s'.held
  {
    hide AfterMode, AfterDuty, AfterTake, AfterChange, FloorDuty;
  }

  // ------------------------------------------------------- suspend and resume

  /** A suspend and resume is a release followed by a fresh request for the same duty, at
      the temperature of the wake and through the full clamp; nothing else is carried over
      but a curve with its ramp forgotten. */
  lemma ResumeReissuesRequest(w: World, s: LeaseState, thermal: Thermal)
    requires Valid(s) && s.held
    ensures
      var (asleep, kept) := AfterSleep(w, s);
      var (awake, r) := AfterResume(w, asleep, thermal);
      var released := AfterCurveReset(AfterReleaseNow(w, s).0).(restoreDuty := s.requested, restorePending := false);
      && kept == Some(s.requested) && !asleep.held
      && r.Some? && (awake, r.value) == AfterSetDuty(w, released, s.requested, thermal)
  {}

  /** A fan that is not held when the machine sleeps is not taken when it wakes. */
  lemma UnheldSleepTakesNothing(w: World, s: LeaseState, thermal: Thermal)
    requires Valid(s) && !s.held && !s.restorePending
    ensures AfterSleep(w, s) == (s, None)
    ensures AfterResume(w, AfterSleep(w, s).0, thermal) == (s, None)
  {}

  /** A pending restore is always owed to a suspend with no resume, release or restart
      since. */
  lemma {:induction false} PendingMeansAsleep(w: World, s: LeaseState, events: seq<Event>)
    requires Valid(s) && !s.restorePending
    ensures Run(w, s, events).restorePending ==> SleepOutstanding(events)
  {
    hide AfterSetDuty, AfterSetCurve, AfterEnforce, AfterRelease, AfterReleaseNow, AfterResume, AfterRestart;
    if events == [] {
    } else {
      var n := |events| - 1;
      PendingMeansAsleep(w, s, events[..n]);
      if Run(w, s, events).restorePending {
        if events[n].Sleep? && !Run(w, s, events[..n]).restorePending {
          assert events[n].Sleep?;
        } else {
          var k :| 0 <= k < n && SleptAt(events[..n], k);
          if events[n].Sleep? { assert SleptAt(events, n); } else { assert SleptAt(events, k); }
        }
        if events[n].Sleep? { assert SleptAt(events, n); }
      }
    }
  }

  ghost predicate SleptAt(events: seq<Event>, k: int)
    requires 0 <= k < |events|
  {
    && events[k].Sleep?
    && forall j :: k < j < |events| ==> !events[j].Resume? && !events[j].Release? && !events[j].Restart?
  }

  ghost predicate SleepOutstanding(events: seq<Event>) {
    exists k :: 0 <= k < |events| && SleptAt(events, k)
  }

  /** Once resumed, released or restarted, a later resume does nothing at all until the
      next suspend: the restore happens at most once, and asking for EC control cancels
      it. */
  lemma RestoredAtMostOnce(w: World, s: LeaseState, e: Event, events: seq<Event>, thermal: Thermal)
    requires Valid(s) && (e.Resume? || e.Release? || e.Restart?)
    requires forall i :: 0 <= i < |events| ==> !events[i].Sleep?
    ensures
      var later := Run(w, Step(w, s, e), events);
      AfterResume(w, later, thermal) == (later, None)
  {
    PendingMeansAsleep(w, Step(w, s, e), events);
  }
}
