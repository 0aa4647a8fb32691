/** A tick of the loop that governs the fan: learn what firmware does, or hold ourselves to it
    (crates/fw-helperd/src/main.rs, `Govern` and `govern_fan`). */
module Govern {
  import opened Prelude
  import opened Board
  import opened Floor
  import opened ThermalInputs
  import opened Lease
  import opened FanErrors
  import Direction
  import EcFan
  import FloorModel
  import LeaseObject
  import SysfsFan

  /** What is remembered between ticks. */
  datatype GovernState = GovernState(celsius: Option<Celsius>, duty: Option<Duty>, direction: Direction.DirectionState)

  /** What one tick is given: the thermal inputs, and the speeds the node reports. */
  datatype Sample = Sample(thermal: Thermal, target: Option<nat>, actual: Option<nat>)

  function Hysteretic(s: LeaseState): bool {
    s.profile.None? || s.profile.value.firmwareCurveHysteretic
  }

  /** Where the span credited to `duty` starts: the last sample, if firmware's duty was the
      same there. */
  function SpanStart(g: GovernState, c: Celsius, duty: Duty): Celsius {
    if g.celsius.Some? && g.duty == Some(duty) then g.celsius.value else c
  }

  function AfterGovern(w: World, s: LeaseState, g: GovernState, sample: Sample): (r: (LeaseState, GovernState))
    requires Valid(s)
    ensures Valid(r.0) && r.0.profile == s.profile
  {
    hide AfterFirmwareDuty, AfterEnforce;
    var celsius := sample.thermal.celsius;
    var direction := Direction.AfterReading(g.direction, celsius);
    var rising := celsius.Some? && direction.rising;
    var g1 := g.(celsius := celsius, direction := direction);
    if s.held then (AfterEnforce(w, s, sample.thermal).0, g1)
    else
      var (s1, duty) := AfterFirmwareDuty(w, s, sample.target, sample.actual);
      if celsius.Some? && duty.Some? then
        var from := SpanStart(g, celsius.value, duty.value);
        (AfterObserve(s1, from, celsius.value, duty.value, rising || !Hysteretic(s)), g1.(duty := duty))
      else (s1, g1.(duty := None))
  }

  class Governor {
    const lease: LeaseObject.FanLease
    const direction: Direction.Direction
    var celsius: Option<Celsius>
    var duty: Option<Duty>

    function State(): GovernState
      reads this, direction
    {
      GovernState(celsius, duty, direction.State())
    }

    constructor (lease: LeaseObject.FanLease)
      ensures this.lease == lease && fresh(direction)
      ensures State() == GovernState(None, None, Direction.COLD_START)
    {
      this.lease := lease;
      celsius, duty := None, None;
      direction := new Direction.Direction();
    }

    /** Feed the reading to the direction; true when it reads as heating. */
    method Heading(reading: Option<Celsius>) returns (rising: bool)
      modifies `celsius, direction
      ensures State() == old(State()).(celsius := reading,
        direction := Direction.AfterReading(old(State()).direction, reading))
      ensures rising == (reading.Some? && direction.rising)
    {
      rising := false;
      if reading.Some? {
        rising := direction.Update(reading);
      }
      celsius := reading;
    }

    /** The half that runs while firmware drives: learn what it does. */
    method Learn(before: GovernState, sample: Sample, rising: bool)
      requires lease.Valid() && !lease.held
      requires State() == before.(celsius := sample.thermal.celsius,
        direction := Direction.AfterReading(before.direction, sample.thermal.celsius))
      requires rising == (sample.thermal.celsius.Some? && direction.rising)
      modifies `duty, lease.floor, lease.floor.observed, lease.floor.seen, lease.Hardware()
      ensures lease.Valid()
      ensures (lease.State(), State()) == AfterGovern(lease.Environment(), old(lease.State()), before, sample)
    {
      hide AfterFirmwareDuty, Direction.AfterReading, AfterSpan;
      hide LeaseObject.FanLease.FanState, LeaseObject.FanLease.Environment;
      var reading := sample.thermal.celsius;
      var credited := rising || !(lease.profile.None? || lease.profile.value.firmwareCurveHysteretic);
      var choice := lease.FirmwareDuty(sample.target, sample.actual);
      if reading.Some? && choice.Some? {
        lease.Observe(SpanStart(before, reading.value, choice.value), reading.value, choice.value, credited);
      }
      duty := if reading.Some? then choice else None;
    }

    method GovernFan(sample: Sample)
      requires lease.Valid()
      modifies this, direction, lease.Parts()
      ensures lease.Valid()
      ensures (lease.State(), State()) == AfterGovern(lease.Environment(), old(lease.State()), old(State()), sample)
    {
      hide AfterFirmwareDuty, AfterEnforce, Direction.AfterReading, AfterSpan;
      hide LeaseObject.FanLease.FanState, LeaseObject.FanLease.Environment;
      var before := State();
      var rising := Heading(sample.thermal.celsius);
      if !lease.held {
        Learn(before, sample, rising);
      } else {
        var _ := lease.EnforceFloor(sample.thermal);
      }
    }
  }

  // ---------------------------------------------------------------- whole runs

  /** What the registers have come to hold by each tick: firmware moves its own duty between
      ticks, and other programs may write what they like. */
  type Outside = nat -> SysfsFan.Registers

  function RunSamples(w: World, outside: Outside, s: LeaseState, g: GovernState, samples: seq<Sample>)
    : (r: (LeaseState, GovernState))
    requires Valid(s)
    ensures Valid(r.0) && r.0.profile == s.profile
  {
    if samples == [] then (s, g)
    else
      var n := |samples| - 1;
      var (s', g') := RunSamples(w, outside, s, g, samples[..n]);
      AfterGovern(w, AfterOutside(s', outside(n)), g', samples[n])
  }

  /** No reading climbs two degrees above an earlier one, or above the trough so far. */
  ghost predicate NeverClimbs(trough: Option<real>, samples: seq<Sample>) {
    forall k :: 0 <= k < |samples| && samples[k].thermal.Readable().Some? ==>
      var c := samples[k].thermal.Readable().value;
      && (trough.Some? ==> c < trough.value + Direction.DIRECTION_HYSTERESIS_C)
      && (forall i :: 0 <= i < k && samples[i].thermal.Readable().Some? ==>
            c < samples[i].thermal.Readable().value + Direction.DIRECTION_HYSTERESIS_C)
  }

  /** The trough of a fall is one of the readings seen, or the one it began with. */
  ghost predicate TroughSeen(trough: Option<real>, start: Option<real>, samples: seq<Sample>) {
    trough == start ||
    (trough.Some? && exists i :: 0 <= i < |samples| && samples[i].thermal.Readable() == trough)
  }

  /** A descent teaches nothing. On a board whose firmware is hysteretic, once the direction
      reads falling, ticks whose temperature never climbs two degrees above its running
      minimum leave the floor exactly as it was, whatever duties firmware goes through, whoever
      holds the fan and whatever fails. */
  lemma {:induction false} DescentTeachesNothing(w: World, outside: Outside, s: LeaseState, g: GovernState,
                                                 samples: seq<Sample>)
    requires Valid(s) && Hysteretic(s) && !g.direction.rising
    requires NeverClimbs(g.direction.trough, samples)
    ensures
      var (s', g') := RunSamples(w, outside, s, g, samples);
      && s'.floor == s.floor
      && !g'.direction.rising
      && TroughSeen(g'.direction.trough, g.direction.trough, samples)
  {
    hide AfterFirmwareDuty, AfterEnforce;
    if samples == [] {
    } else {
      var n := |samples| - 1;
      var before := samples[..n];
      assert NeverClimbs(g.direction.trough, before) by {
        forall k | 0 <= k < n ensures before[k] == samples[k] {}
      }
      DescentTeachesNothing(w, outside, s, g, before);
      var (s1, g1) := RunSamples(w, outside, s, g, before);
      FallContinues(g1.direction, g.direction.trough, samples);
      TickTeaches(w, AfterOutside(s1, outside(n)), g1, samples[n]);
    }
  }

  /** One more reading that does not climb keeps the direction falling. */
  lemma FallContinues(d: Direction.DirectionState, start: Option<real>, samples: seq<Sample>)
    requires samples != [] && !d.rising && NeverClimbs(start, samples)
    requires TroughSeen(d.trough, start, samples[..|samples| - 1])
    ensures
      var d' := Direction.AfterReading(d, samples[|samples| - 1].thermal.celsius);
      !d'.rising && TroughSeen(d'.trough, start, samples)
  {
    var n := |samples| - 1;
    var c := samples[n].thermal.Readable();
    if d.trough != start {
      var i :| 0 <= i < n && samples[..n][i].thermal.Readable() == d.trough;
      assert samples[i].thermal.Readable() == d.trough;
    }
    if c.Some? {
      assert samples[n].thermal.Readable().Some?;
      var d' := Direction.AfterReading(d, samples[n].thermal.celsius);
      if d'.trough == c { assert samples[n].thermal.Readable() == d'.trough; }
    }
  }

  /** A tick that reads falling on a hysteretic board records nothing. */
  lemma TickTeaches(w: World, s: LeaseState, g: GovernState, sample: Sample)
    requires Valid(s) && Hysteretic(s)
    requires !Direction.AfterReading(g.direction, sample.thermal.celsius).rising
    ensures AfterGovern(w, s, g, sample).0.floor == s.floor
  {
    hide AfterEnforce;
  }

  /** A tick that finds the lease held teaches nothing on any board. */
  lemma HoldingTeachesNothing(w: World, s: LeaseState, g: GovernState, sample: Sample)
    requires Valid(s) && s.held
    ensures AfterGovern(w, s, g, sample).0.floor == s.floor
  {
    hide AfterEnforce;
  }

  /** In an unbroken stretch with firmware driving, a whole span is credited only when both
      of its ends were sampled and firmware showed the same duty at both; otherwise only the
      new sample's own temperature is. Between the two firmware may have moved its duty. */
  lemma SpansAreBackedByTwoSamples(w: World, s: LeaseState, g: GovernState,
                                   first: Sample, between: SysfsFan.Registers, second: Sample)
    requires Valid(s) && !s.held
    ensures
      var (s1, g1) := AfterGovern(w, s, g, first);
      var moved := AfterOutside(s1, between);
      var shown := AfterFirmwareDuty(w, moved, second.target, second.actual).1;
      var (s2, _) := AfterGovern(w, moved, g1, second);
      var rising := Direction.AfterReading(g1.direction, second.thermal.celsius).rising || !Hysteretic(s);
      var firstShown := AfterFirmwareDuty(w, s, first.target, first.actual).1;
      !s1.held &&
      s2.floor ==
        if second.thermal.celsius.None? || shown.None? then s1.floor
        else if first.thermal.celsius.Some? && firstShown == shown
        then AfterSpan(s1.floor, first.thermal.celsius.value, second.thermal.celsius.value, shown.value, rising)
        else AfterSpan(s1.floor, second.thermal.celsius.value, second.thermal.celsius.value, shown.value, rising)
  {
    hide AfterEnforce, AfterSpan, Direction.AfterReading;
  }

  /** The case where the span is not credited is real where firmware's duty can be read: two
      readable ticks, and firmware going from 40 to 90 between them. */
  lemma FirmwareMovesBetweenTicks(w: World, s: LeaseState, first: Sample, second: Sample)
    requires Valid(s) && s.fan.OnSysfs? && (forall n :: w.hw.readOk(n))
    ensures
      var before := AfterOutside(s, SysfsFan.Registers(PWM_AUTO, 40));
      var (read, shown) := AfterFirmwareDuty(w, before, first.target, first.actual);
      var after := AfterOutside(read, SysfsFan.Registers(PWM_AUTO, 90));
      shown == Some(40) && AfterFirmwareDuty(w, after, second.target, second.actual).1 == Some(90)
  {}

  // ------------------------------------------------------- whose duty is learned

  /** What a tick tells the floor, if anything. */
  function Recorded(w: World, s: LeaseState, g: GovernState, sample: Sample): Option<FloorEvent>
    requires Valid(s)
  {
    var celsius := sample.thermal.celsius;
    var duty := AfterFirmwareDuty(w, s, sample.target, sample.actual).1;
    if s.held || celsius.None? || duty.None? then None
    else
      var rising := Direction.AfterReading(g.direction, celsius).rising || !Hysteretic(s);
      Some(Observed(SpanStart(g, celsius.value, duty.value), celsius.value, duty.value, rising))
  }

  /** And it tells it nothing else. */
  lemma TickRecords(w: World, s: LeaseState, g: GovernState, sample: Sample)
    requires Valid(s)
    ensures
      var e := Recorded(w, s, g, sample);
      AfterGovern(w, s, g, sample).0.floor == if e.None? then s.floor else Learn(s.floor, e.value)
  {
    hide AfterEnforce, AfterSpan, Direction.AfterReading;
  }

  /** The register shows a manual owner's duty, not firmware's choice. */
  predicate ShowsOurs(fan: Fan) { fan.OnSysfs? && fan.hw.enable == PWM_MANUAL }

  /** The tick teaches the floor a duty read from a register that does not show firmware's. */
  ghost predicate LearnsOurs(w: World, s: LeaseState, g: GovernState, sample: Sample)
    requires Valid(s)
  {
    var e := Recorded(w, s, g, sample);
    e.Some? && e.value.rising && ShowsOurs(s.fan) && AfterDuty(w, s.fan).1 == Some(e.value.duty)
  }

  /** On sysfs a tick that finds the lease free, and would learn what the register shows,
      takes a duty of ours for firmware's exactly when the mode is manual. The flag, and not
      the mode, is what is asked. */
  lemma OursLearnedExactly(w: World, s: LeaseState, g: GovernState, sample: Sample)
    requires Valid(s) && s.fan.OnSysfs?
    requires !s.held && sample.thermal.celsius.Some? && w.hw.readOk(s.fan.hw.clock)
    requires Direction.AfterReading(g.direction, sample.thermal.celsius).rising || !Hysteretic(s)
    ensures LearnsOurs(w, s, g, sample) <==> s.fan.hw.enable == PWM_MANUAL
    ensures
      var duty := Min(s.fan.hw.pwm, 255);
      var celsius := sample.thermal.celsius.value;
      AfterGovern(w, s, g, sample).0.floor == AfterSpan(s.floor, SpanStart(g, celsius, duty), celsius, duty, true)
  {
    hide AfterEnforce, AfterSpan, Direction.AfterReading;
  }

  /** No tick that finds the lease held ever does, nor one on a board without the registers. */
  lemma OursLearnedOnlyWhenFree(w: World, s: LeaseState, g: GovernState, sample: Sample)
    requires Valid(s)
    ensures LearnsOurs(w, s, g, sample) ==> !s.held && s.fan.OnSysfs? && s.fan.hw.enable == PWM_MANUAL
  {}

  /** A node whose mode cannot be handed back. */
  const STUCK_MANUAL: World := World(
    SysfsFan.HwScript(
      n => SysfsFan.WriteReply(true, SysfsFan.Applied), n => SysfsFan.WriteReply(false, SysfsFan.Ignored),
      n => SysfsFan.WriteReply(true, SysfsFan.Applied), n => true),
    EcFan.EcScript(n => EcFan.Reply(true, true), n => EcFan.Reply(true, true)))

  /** It happens. A fan held at a standstill is released for want of a reading, the release
      is refused, and the flag is cleared all the same; the next hot tick records our own
      silence as firmware's, and the floor at 80 degrees falls from a turning duty to none. */
  lemma RefusedReleaseTeachesOurs(ceiling: Ceiling, battery: BatteryGuard)
    ensures
      var fan := OnSysfs(SysfsFan.HwState(PWM_MANUAL, 0, 0));
      var s := NewLease(Some(INTEL_CORE_ULTRA_3), fan).(held := true);
      var g := GovernState(None, None, Direction.DirectionState(true, None, Some(79.0)));
      var blind := Sample(Thermal(None, ceiling, None, battery), None, None);
      var hot := Sample(Thermal(Some(Finite(80.0)), ceiling, None, battery), None, None);
      var (s1, g1) := AfterGovern(STUCK_MANUAL, s, g, blind);
      var s2 := AfterGovern(STUCK_MANUAL, s1, g1, hot).0;
      && !s1.held && s1.fan.OnSysfs? && s1.fan.hw.enable == PWM_MANUAL
      && LearnsOurs(STUCK_MANUAL, s1, g1, hot) && s2.floor.table[25] == Some(0)
      && FloorDuty(INTEL_CORE_ULTRA_3, s.floor.table, Finite(80.0)) >= STICTION_DUTY
      && FloorDuty(INTEL_CORE_ULTRA_3, s2.floor.table, Finite(80.0)) == 0
  {
    assert Bucket(Finite(80.0)) == Some(25);
    assert RecordRange(FRESH, 25, 26, 0) == AfterRecord(RecordRange(FRESH, 25, 25, 0), 25, 0);
    HotModelTurns();
  }

  lemma HotModelTurns()
    ensures FloorDuty(INTEL_CORE_ULTRA_3, Nothing(BUCKETS), Finite(80.0)) >= STICTION_DUTY
  {
    var p := INTEL_CORE_ULTRA_3;
    LerpBounds(3100.0, 5201.0, FloorModel.Ratio(80.0 - 76.8, FULL_DUTY_ABOVE_C - 76.8));
    assert FloorModel.FirmwareSpeed(p, 80.0) >= 3100.0;
  }

  // --------------------------------------------- the direction a run has taken

  function Readings(samples: seq<Sample>): (r: seq<Option<Celsius>>)
    ensures |r| == |samples|
  {
    seq(|samples|, k requires 0 <= k < |samples| => samples[k].thermal.celsius)
  }

  /** Held or not, whatever firmware shows, a run's direction is that of its readings. */
  lemma {:induction false} DirectionOfRun(w: World, outside: Outside, s: LeaseState, g: GovernState,
                                          samples: seq<Sample>)
    requires Valid(s)
    ensures RunSamples(w, outside, s, g, samples).1.direction == Direction.Fed(g.direction, Readings(samples))
  {
    hide AfterFirmwareDuty, AfterEnforce, Direction.AfterReading, AfterOutside, AfterObserve;
    if samples == [] {
    } else {
      var n := |samples| - 1;
      DirectionOfRun(w, outside, s, g, samples[..n]);
      assert Readings(samples)[..n] == Readings(samples[..n]);
    }
  }

  /** A drop ends the learning. From a cold start on a hysteretic board, let a run of ticks end
      rising; then the tick that reads two degrees under anything since the last change of
      direction teaches nothing, and neither does any tick after it while the temperature never
      climbs two degrees above its running minimum. */
  lemma DropTeachesNothing(w: World, outside: Outside, s: LeaseState, before: seq<Sample>, drop: Sample,
                           after: seq<Sample>, later: Outside, peak: real)
    requires Valid(s) && Hysteretic(s) && drop.thermal.Readable().Some?
    requires
      var g := GovernState(None, None, Direction.COLD_START);
      RunSamples(w, outside, s, g, before).1.direction.rising
    requires
      var readings := Direction.Readable(Readings(before));
      peak in Direction.Recent(readings) && drop.thermal.Readable().value <= peak - 2.0
    requires NeverClimbs(drop.thermal.Readable(), after)
    ensures
      var g := GovernState(None, None, Direction.COLD_START);
      var (s1, g1) := RunSamples(w, outside, s, g, before);
      var (s2, g2) := AfterGovern(w, s1, g1, drop);
      var (s3, g3) := RunSamples(w, later, s2, g2, after);
      !g2.direction.rising && !g3.direction.rising && s3.floor == s2.floor == s1.floor
  {
    hide AfterGovern, RunSamples, Hysteretic;
    var g := GovernState(None, None, Direction.COLD_START);
    var (s1, g1) := RunSamples(w, outside, s, g, before);
    var readings := Direction.Readable(Readings(before));
    var c := drop.thermal.Readable().value;
    DirectionOfRun(w, outside, s, g, before);
    Direction.OnlyReadableCount(Direction.COLD_START, Readings(before));
    DropFlips(readings, c, peak);
    StillHysteretic(s, s1);
    TickTeaches(w, s1, g1, drop);
    var (s2, g2) := AfterGovern(w, s1, g1, drop);
    TickReads(w, s1, g1, drop);
    StillHysteretic(s, s2);
    DescentTeachesNothing(w, later, s2, g2, after);
  }

  /** A drop of two degrees from a rising run leaves it falling, from that reading. */
  lemma DropFlips(readings: seq<real>, c: real, peak: real)
    requires Direction.Run(Direction.COLD_START, readings).rising
    requires peak in Direction.Recent(readings) && c <= peak - 2.0
    ensures
      var s := Direction.Run(Direction.COLD_START, readings);
      Direction.Feed(s, c) == Direction.DirectionState(false, Some(c), None)
  {
    Direction.ExtremeSinceFlip(readings);
  }

  lemma StillHysteretic(s: LeaseState, s': LeaseState)
    requires s'.profile == s.profile
    ensures Hysteretic(s') == Hysteretic(s)
  {}

  lemma TickReads(w: World, s: LeaseState, g: GovernState, sample: Sample)
    requires Valid(s)
    ensures AfterGovern(w, s, g, sample).1.direction == Direction.AfterReading(g.direction, sample.thermal.celsius)
  {
    hide AfterFirmwareDuty, AfterEnforce, Direction.AfterReading;
  }

  /** And a climb starts it again: on every board a free tick that reads two degrees above
      something since the last change of direction, and finds a duty, tells the floor of it. */
  lemma ClimbIsLearned(w: World, outside: Outside, s: LeaseState, before: seq<Sample>, climb: Sample,
                       duty: Duty, trough: real)
    requires Valid(s) && climb.thermal.Readable().Some?
    requires
      var readings := Direction.Readable(Readings(before));
      readings != [] && trough in Direction.Recent(readings) && climb.thermal.Readable().value >= trough + 2.0
    requires
      var s1 := RunSamples(w, outside, s, GovernState(None, None, Direction.COLD_START), before).0;
      !s1.held && AfterFirmwareDuty(w, s1, climb.target, climb.actual).1 == Some(duty)
    ensures
      var (s1, g1) := RunSamples(w, outside, s, GovernState(None, None, Direction.COLD_START), before);
      var e := Recorded(w, s1, g1, climb);
      !g1.direction.rising ==>
        && e.Some? && e.value.Observed? && e.value.rising
        && e.value.duty == duty && e.value.to == climb.thermal.celsius.value
  {
    hide RunSamples, AfterFirmwareDuty;
    var g := GovernState(None, None, Direction.COLD_START);
    var readings := Direction.Readable(Readings(before));
    var c := climb.thermal.Readable().value;
    DirectionOfRun(w, outside, s, g, before);
    Direction.OnlyReadableCount(Direction.COLD_START, Readings(before));
    Direction.FlipsExactlyOnTwoDegrees(readings, c);
    assert (readings + [c])[..|readings|] == readings;
  }

  /** Which branch counts: what a tick tells the floor is credited while the machine heats, and
      on a board known not to be hysteretic while it cools as well. An unmeasured board is
      taken to be hysteretic. */
  lemma BranchThatCounts(w: World, s: LeaseState, g: GovernState, sample: Sample)
    requires Valid(s) && Recorded(w, s, g, sample).Some?
    ensures
      var e := Recorded(w, s, g, sample).value;
      e.Observed? && e.to == sample.thermal.celsius.value &&
      (e.rising <==>
         || Direction.AfterReading(g.direction, sample.thermal.celsius).rising
         || (s.profile.Some? && !s.profile.value.firmwareCurveHysteretic))
  {
    hide AfterFirmwareDuty, Direction.AfterReading;
  }
}
