/** A held fan follows its curve: what the lease asks of the fan, tick after tick, while a
    curve is active. */
module CurveRuns {
  import opened Prelude
  import opened Board
  import opened Floor
  import opened ThermalInputs
  import opened Lease
  import opened LeaseRuns
  import Curve
  import Engine

  /** Every event is a tick, a read or a change of the registers, and every tick reads
      `celsius` and neither releases the fan nor fails. */
  ghost predicate GoodRun(w: World, s: LeaseState, events: seq<Event>, celsius: real)
    requires Valid(s)
  {
    events == [] ||
    (var (before, e) := (events[..|events| - 1], events[|events| - 1]);
     && GoodRun(w, s, before, celsius)
     && Undirected(e)
     && (e.Tick? ==>
           && e.thermal.Readable() == Some(celsius)
           && (var outcome := AfterEnforce(w, Run(w, s, before), e.thermal).1;
               outcome.None? || outcome.value.Corrected?)))
  }

  function Ticks(events: seq<Event>): nat {
    if events == [] then 0
    else Ticks(events[..|events| - 1]) + (if events[|events| - 1].Tick? then 1 else 0)
  }

  /** The fan is held, and the request is the last thing this curve's engine asked for. */
  ghost predicate Following(s: LeaseState, curve: seq<Curve.Point>) {
    && s.held && s.curve.Some? && s.curve.value.curve == curve
    && s.curve.value.workingC.Some? && s.curve.value.lastDuty == Some(s.requested)
  }

  /** An accepted curve is the one followed from then on, and its first request is exactly what
      it draws at the reading. */
  lemma AcceptedCurveIsFollowed(w: World, s: LeaseState, curve: Curve.Drawn, thermal: Thermal)
    requires Valid(s) && AfterSetCurve(w, s, curve, thermal).1.Ok?
    ensures
      var (s', r) := AfterSetCurve(w, s, curve, thermal);
      && Following(s', curve) && thermal.Readable().Some?
      && s'.curve.value.workingC == thermal.Readable()
      && s'.requested == r.value.requested == Curve.DutyAt(curve, Finite(thermal.Readable().value))
  {
    hide AfterSetDuty, Curve.DutyAt;
    var celsius := thermal.Readable().value;
    RequestIsRemembered(w, s, Engine.AfterTick(Engine.Started(curve), Finite(celsius)).1, thermal);
  }

  /** A refused curve changes nothing about what is followed. */
  lemma RefusedCurveIsForgotten(w: World, s: LeaseState, curve: Curve.Drawn, thermal: Thermal)
    requires Valid(s) && AfterSetCurve(w, s, curve, thermal).1.Err?
    ensures AfterSetCurve(w, s, curve, thermal).0.(fan := s.fan) == s
  {
    hide AfterSetDuty, Curve.DutyAt;
    if thermal.Readable().Some? {
      RequestIsRemembered(w, s, Engine.AfterTick(Engine.Started(curve), Finite(thermal.Readable().value)).1, thermal);
    }
  }

  /** A good tick of a held fan with a curve asks for what the engine answers, and applies it or
      what bounds it. */
  lemma TickAsksTheEngine(w: World, s: LeaseState, thermal: Thermal)
    requires Valid(s) && s.held && s.curve.Some?
    ensures
      var (s', outcome) := AfterEnforce(w, s, thermal);
      outcome.None? || outcome.value.Corrected? ==>
        && thermal.Readable().Some? && s'.held
        && (var celsius := thermal.Readable().value;
            && (s'.curve, s'.requested) == (Some(Engine.AfterTick(s.curve.value, Finite(celsius)).0),
                                           Engine.AfterTick(s.curve.value, Finite(celsius)).1)
            && s'.applied == Max(s'.requested, Bound(s, celsius, thermal)))
  {
    hide AfterHold, AfterReleaseNow, FloorDuty, Engine.AfterTick, Curve.Valid;
    if thermal.Readable().Some? {
      var celsius := thermal.Readable().value;
      HoldApplies(w, AfterCurveTick(s, celsius), celsius, thermal);
    }
  }

  /** Each such tick moves the request toward what the curve draws at a point at or up to two
      degrees above the reading, by at most twelve up and four down but for the final stop, and
      leaves it where it was only if it is there. */
  lemma TickMovesRequest(w: World, s: LeaseState, curve: seq<Curve.Point>, thermal: Thermal)
    returns (working: real)
    requires Valid(s) && Following(s, curve)
    requires
      var outcome := AfterEnforce(w, s, thermal).1;
      outcome.None? || outcome.value.Corrected?
    ensures thermal.Readable().Some?
    ensures thermal.Readable().value <= working < thermal.Readable().value + 2.0
    ensures
      var s' := AfterEnforce(w, s, thermal).0;
      var target := Curve.DutyAt(curve, Finite(working));
      && Following(s', curve)
      && Min(s.requested, target) <= s'.requested <= Max(s.requested, target)
      && s'.requested <= s.requested + 12
      && (s'.requested >= s.requested - 4 || (s'.requested == 0 && s.requested < STICTION_DUTY + 4))
      && (s'.requested == s.requested ==> s'.requested == target)
  {
    TickAsksTheEngine(w, s, thermal);
    hide AfterEnforce, Curve.DutyAt;
    var celsius := thermal.Readable().value;
    Engine.WorkingTracksReading(s.curve.value, celsius);
    Engine.TickIsGentle(s.curve.value, celsius);
    working := Engine.AfterTick(s.curve.value, Finite(celsius)).0.workingC.value;
  }

  /** Along a good run the engine has ticked once for every tick of the lease. */
  lemma {:induction false} EngineKeepsPace(w: World, s: LeaseState, curve: seq<Curve.Point>,
                                          events: seq<Event>, celsius: real)
    requires Valid(s) && Following(s, curve) && GoodRun(w, s, events, celsius)
    ensures
      var s' := Run(w, s, events);
      && Following(s', curve) && s'.floor == s.floor
      && s'.curve == Some(Engine.TickTimes(s.curve.value, celsius, Ticks(events)))
  {
    hide AfterEnforce, AfterFirmwareDuty, Engine.AfterTick, Curve.Valid;
    if events == [] {
    } else {
      var (before, e) := (events[..|events| - 1], events[|events| - 1]);
      EngineKeepsPace(w, s, curve, before, celsius);
      var s1 := Run(w, s, before);
      if e.Tick? {
        TickAsksTheEngine(w, s1, e.thermal);
        EngineAnswers(s1.curve.value, celsius);
        TickKeepsFloor(w, s1, e.thermal);
      }
    }
  }

  lemma EngineAnswers(s: Engine.EngineState, celsius: real)
    requires Curve.Valid(s.curve)
    ensures
      var (s', duty) := Engine.AfterTick(s, Finite(celsius));
      s'.curve == s.curve && s'.workingC.Some? && s'.lastDuty == Some(duty)
  {
    hide Curve.DutyAt;
  }

  /** A held fan follows its curve. Accept a curve, and run the lease at a constant temperature
      through ticks that neither release nor fail, whatever moves the registers between them.
      By the sixty-fourth tick what is applied is the curve's own duty at a point no cooler than
      the machine and less than two degrees hotter, or what bounds it there and then. */
  lemma CurveIsFollowed(w: World, s: LeaseState, curve: Curve.Drawn, asked: Thermal,
                        events: seq<Event>, thermal: Thermal, celsius: real) returns (working: real)
    requires Valid(s) && AfterSetCurve(w, s, curve, asked).1.Ok?
    requires GoodRun(w, AfterSetCurve(w, s, curve, asked).0, events + [Tick(thermal)], celsius)
    requires Ticks(events) >= 63
    ensures celsius <= working < celsius + 2.0
    ensures
      var s' := Run(w, AfterSetCurve(w, s, curve, asked).0, events + [Tick(thermal)]);
      && s'.held && s'.requested == Curve.DutyAt(curve, Finite(working))
      && s'.applied == Max(Curve.DutyAt(curve, Finite(working)), Bound(s, celsius, thermal))
  {
    AcceptedCurveIsFollowed(w, s, curve, asked);
    hide AfterSetCurve, AfterEnforce, Engine.AfterTick, FloorDuty, Curve.Valid, Curve.DutyAt;
    var s0 := AfterSetCurve(w, s, curve, asked).0;
    var all := events + [Tick(thermal)];
    assert all[..|all| - 1] == events;
    EngineKeepsPace(w, s0, curve, events, celsius);
    EngineKeepsPace(w, s0, curve, all, celsius);
    TickAsksTheEngine(w, Run(w, s0, events), thermal);
    Engine.SettlesWithin64(s0.curve.value, celsius, Ticks(all));
    working := Engine.Working(s0.curve.value.workingC, celsius);
  }

  /** After a resume the curve starts over: the first good tick asks for exactly what it draws
      at the reading, with no ramp from what was asked for before the sleep. */
  lemma ResumedCurveStartsOver(w: World, s: LeaseState, woken: Thermal, thermal: Thermal)
    requires Valid(s) && s.restorePending && s.curve.Some?
    requires
      var (awake, r) := AfterResume(w, s, woken);
      && r.Some? && r.value.Ok?
      && (var outcome := AfterEnforce(w, awake, thermal).1; outcome.None? || outcome.value.Corrected?)
    ensures
      var s' := AfterEnforce(w, AfterResume(w, s, woken).0, thermal).0;
      && thermal.Readable().Some?
      && s'.requested == Curve.DutyAt(s.curve.value.curve, Finite(thermal.Readable().value))
  {
    hide AfterEnforce, AfterSetDuty, Curve.DutyAt;
    var reset := AfterCurveReset(s.(restorePending := false));
    RequestIsRemembered(w, reset, s.restoreDuty, woken);
    TickAsksTheEngine(w, AfterResume(w, s, woken).0, thermal);
  }

  /** A curve outlives a duty set by hand: the next good tick asks the engine again. */
  lemma HandSetDutyLastsOneTick(w: World, s: LeaseState, duty: Duty, asked: Thermal, thermal: Thermal)
    requires Valid(s) && s.curve.Some? && AfterSetDuty(w, s, duty, asked).1.Ok?
    requires
      var outcome := AfterEnforce(w, AfterSetDuty(w, s, duty, asked).0, thermal).1;
      outcome.None? || outcome.value.Corrected?
    ensures
      var s' := AfterEnforce(w, AfterSetDuty(w, s, duty, asked).0, thermal).0;
      && thermal.Readable().Some?
      && s'.requested == Engine.AfterTick(s.curve.value, Finite(thermal.Readable().value)).1
  {
    hide AfterEnforce, AfterSetDuty, Engine.AfterTick;
    RequestIsRemembered(w, s, duty, asked);
    TickAsksTheEngine(w, AfterSetDuty(w, s, duty, asked).0, thermal);
  }
}
