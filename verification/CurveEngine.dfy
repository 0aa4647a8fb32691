/** Following a curve tick by tick (crates/fw-helper-core/src/curve.rs, `CurveEngine`). */
module Engine {
  import opened Prelude
  import Curve

  datatype EngineState = EngineState(curve: seq<Curve.Point>, workingC: Option<real>, lastDuty: Option<Duty>)

  function Started(curve: seq<Curve.Point>): EngineState { EngineState(curve, None, None) }

  function AfterReset(s: EngineState): EngineState { s.(workingC := None, lastDuty := None) }

  /** The temperature the curve is evaluated at: up at once, down only past the deadband. */
  function Working(previous: Option<real>, c: real): real {
    if previous.None? || c >= previous.value || c <= previous.value - Curve.HYSTERESIS_C then c
    else previous.value
  }

  /** One ramp-limited step toward `target`. */
  function Ramp(last: Option<Duty>, target: Duty): Duty {
    if last.None? then target
    else if target > last.value then
      SaturatingAdd(last.value, Min(Curve.RAMP_UP_PER_TICK, SaturatingSub(target, last.value)))
    else if target < last.value then
      SaturatingSub(last.value, Min(Curve.RAMP_DOWN_PER_TICK, SaturatingSub(last.value, target)))
    else last.value
  }

  /** A duty on its way to a stop does not linger where the fan cannot turn. */
  function SnapToStop(duty: Duty, target: Duty): Duty {
    if 0 < duty < STICTION_DUTY && target == 0 then 0 else duty
  }

  /** One tick: the new state, and the duty to request. */
  function AfterTick(s: EngineState, celsius: Celsius): (EngineState, Duty)
    requires Curve.Valid(s.curve)
  {
    match celsius
    case NonFinite => (AfterReset(s), 255)
    case Finite(c) =>
      var working := Working(s.workingC, c);
      var target := Curve.DutyAt(s.curve, Finite(working));
      var duty := SnapToStop(Ramp(s.lastDuty, target), target);
      (EngineState(s.curve, Some(working), Some(duty)), duty)
  }

  class CurveEngine {
    const curve: seq<Curve.Point>
    var workingC: Option<real>
    var lastDuty: Option<Duty>

    function State(): EngineState
      reads this
    {
      EngineState(curve, workingC, lastDuty)
    }

    constructor (curve: seq<Curve.Point>)
      ensures State() == Started(curve)
    {
      this.curve := curve;
      workingC, lastDuty := None, None;
    }

    method Reset()
      modifies this
      ensures State() == AfterReset(old(State()))
    {
      workingC := None;
      lastDuty := None;
    }

    method Tick(celsius: Celsius) returns (duty: Duty)
      requires Curve.Valid(curve)
      modifies this
      ensures (State(), duty) == AfterTick(old(State()), celsius)
    {
      if celsius.NonFinite? {
        Reset();
        return 255;
      }
      var c := celsius.celsius;
      var working := c;
      if workingC.Some? && c < workingC.value && c > workingC.value - Curve.HYSTERESIS_C {
        working := workingC.value;
      }
      workingC := Some(working);
      var target := Curve.DutyAt(curve, Finite(working));
      duty := target;
      if lastDuty.Some? {
        var last := lastDuty.value;
        duty := last;
        if target > last {
          duty := SaturatingAdd(last, Min(Curve.RAMP_UP_PER_TICK, SaturatingSub(target, last)));
        } else if target < last {
          duty := SaturatingSub(last, Min(Curve.RAMP_DOWN_PER_TICK, SaturatingSub(last, target)));
        }
      }
      if duty > 0 && duty < STICTION_DUTY && target == 0 {
        duty := 0;
      }
      lastDuty := Some(duty);
    }
  }

  // --------------------------------------------------------------- one tick

  /** After every finite tick the working point is at or above the reading, by less than
      the deadband. */
  lemma WorkingTracksReading(s: EngineState, c: real)
    requires Curve.Valid(s.curve)
    ensures
      var (s', _) := AfterTick(s, Finite(c));
      s'.workingC.Some? && c <= s'.workingC.value < c + Curve.HYSTERESIS_C
  {}

  /** The output moves toward the target without passing it, by at most 12 up and 4 down
      except for the final stop, and never idles where the fan cannot turn when the target
      is a stop. */
  lemma TickIsGentle(s: EngineState, c: real)
    requires Curve.Valid(s.curve)
    ensures
      var (s', duty) := AfterTick(s, Finite(c));
      var target := Curve.DutyAt(s.curve, Finite(s'.workingC.value));
      && s'.lastDuty == Some(duty)
      && (target == 0 ==> !(0 < duty < STICTION_DUTY))
      && (s.lastDuty.None? ==> duty == target)
      && (s.lastDuty.Some? ==>
            && Min(s.lastDuty.value, target) <= duty <= Max(s.lastDuty.value, target)
            && duty <= s.lastDuty.value + 12
            && (duty >= s.lastDuty.value - 4 || (duty == 0 && s.lastDuty.value < STICTION_DUTY + 4))
            && (duty == s.lastDuty.value ==> duty == target))
  {}

  /** How far it moves, exactly: all the way where there is no last duty, else by twelve up or
      four down or what is left, but for a stop that would be passed through the duties that do
      not turn the fan. */
  lemma TickMovesExactly(s: EngineState, c: real)
    requires Curve.Valid(s.curve)
    ensures
      var (s', duty) := AfterTick(s, Finite(c));
      var target := Curve.DutyAt(s.curve, Finite(s'.workingC.value));
      s.lastDuty.Some? ==>
        var last := s.lastDuty.value;
        && (target >= last + 12 && last + 12 >= STICTION_DUTY ==> duty == last + 12)
        && (last <= target < last + 12 ==> duty == target)
        && (last - 4 <= target <= last && target > 0 ==> duty == target)
        && (target < last - 4 ==> duty == last - 4 || (target == 0 && duty == 0 && last - 4 < STICTION_DUTY))
  {}

  /** On the way up there is no such care: a stopped fan on a valid curve is asked for a duty
      that cannot turn it. */
  lemma RampsPassThroughStiction()
    ensures
      var curve := [Curve.Point(50.0, 0), Curve.Point(60.0, 255)];
      && Curve.Valid(curve)
      && AfterTick(EngineState(curve, Some(50.0), Some(0)), Finite(60.0)).1 == 12
  {
    var curve := [Curve.Point(50.0, 0), Curve.Point(60.0, 255)];
    assert Curve.Valid(curve);
    Curve.DutyHitsPoints(curve, 1, 60.0);
  }

  // ------------------------------------------------------ constant temperature

  function TickTimes(s: EngineState, c: real, n: nat): (s': EngineState)
    requires Curve.Valid(s.curve)
    ensures s'.curve == s.curve
  {
    if n == 0 then s else AfterTick(TickTimes(s, c, n - 1), Finite(c)).0
  }

  /** From the first tick on, a constant reading keeps the working point where it is, and
      the output closes at least four counts a tick. */
  lemma {:induction false} ClosesFourPerTick(s: EngineState, c: real, n: nat)
    requires Curve.Valid(s.curve) && n > 0
    ensures
      var w := Working(s.workingC, c);
      var target := Curve.DutyAt(s.curve, Finite(w));
      var s' := TickTimes(s, c, n);
      && s'.workingC == Some(w)
      && s'.lastDuty.Some?
      && AbsDiff(s'.lastDuty.value, target) <= Max(0, 255 - 4 * n)
  {
    if n > 1 {
      ClosesFourPerTick(s, c, n - 1);
    } else {
      assert TickTimes(s, c, 0) == s;
    }
  }

  /** At a constant temperature every engine, whatever its history, is on its curve within
      64 ticks and stays there. */
  lemma SettlesWithin64(s: EngineState, c: real, n: nat)
    requires Curve.Valid(s.curve) && n >= 64
    ensures
      var w := Working(s.workingC, c);
      var s' := TickTimes(s, c, n);
      && s'.workingC == Some(w) && c <= w < c + Curve.HYSTERESIS_C
      && s'.lastDuty == Some(Curve.DutyAt(s.curve, Finite(w)))
  {
    ClosesFourPerTick(s, c, n);
  }

  // ----------------------------------------------------------- dips and climbs

  function TickThrough(s: EngineState, readings: seq<real>): (s': EngineState)
    requires Curve.Valid(s.curve)
    ensures s'.curve == s.curve
  {
    if readings == [] then s
    else AfterTick(TickThrough(s, readings[..|readings| - 1]), Finite(readings[|readings| - 1])).0
  }

  /** A wobble is not followed: however the readings move, as long as none is above the working
      point or two degrees under it, the working point stays and so does what the output heads
      for. */
  lemma {:induction false} WobbleIsNotFollowed(s: EngineState, readings: seq<real>)
    requires Curve.Valid(s.curve) && s.workingC.Some?
    requires forall c :: c in readings ==> s.workingC.value - 2.0 < c <= s.workingC.value
    ensures TickThrough(s, readings).workingC == s.workingC
  {
    hide Curve.DutyAt;
    if readings == [] {
    } else {
      var n := |readings| - 1;
      assert readings[n] in readings && forall c :: c in readings[..n] ==> c in readings;
      WobbleIsNotFollowed(s, readings[..n]);
    }
  }

  /** A climb is followed at once, and so is a fall of two degrees; a first reading is taken as
      it is, and an unreadable one forgets everything and asks for full duty. */
  lemma RealMovesAreFollowed(s: EngineState, c: real)
    requires Curve.Valid(s.curve)
    ensures s.workingC.None? || c > s.workingC.value || c <= s.workingC.value - 2.0 ==>
      AfterTick(s, Finite(c)).0.workingC == Some(c)
    ensures s.lastDuty.None? && s.workingC.None? ==> AfterTick(s, Finite(c)).1 == Curve.DutyAt(s.curve, Finite(c))
    ensures AfterTick(s, NonFinite) == (Started(s.curve), 255)
  {}
}
