/** What a fan decision needs from the thermal sensors: the reading it follows, the ceiling
    above which firmware owns the fan (crates/fw-helper-core/src/ceiling.rs), and the
    battery's own guard (crates/fw-helper-core/src/battery.rs). */
module ThermalInputs {
  import opened Prelude

  const CEILING_MARGIN_C: real := 15.0
  const MAX_CEILING_C: real := 100.0
  const FALLBACK_CEILING_C: real := 97.0

  datatype Ceiling = Ceiling(celsius: real, derived: bool) {
    /** No reading is as bad as a reading above it. */
    predicate ExceededBy(c: Celsius) { c.NonFinite? || c.celsius >= celsius }
  }

  function CeilingFromCrit(crit: Option<Celsius>): Ceiling {
    match crit
    case Some(Finite(c)) =>
      if 0.0 <= c <= 150.0 then Ceiling(MinReal(c - CEILING_MARGIN_C, MAX_CEILING_C), true)
      else Ceiling(FALLBACK_CEILING_C, false)
    case _ => Ceiling(FALLBACK_CEILING_C, false)
  }

  const FALLBACK_CRIT_C: real := 50.0
  const RAMP_BELOW_CRIT_C: real := 8.0
  const RELEASE_BELOW_CRIT_C: real := 2.0

  datatype BatteryGuard = BatteryGuard(crit: real) {
    function RampStart(): real { crit - RAMP_BELOW_CRIT_C }

    function ReleaseAbove(): real { crit - RELEASE_BELOW_CRIT_C }

    predicate ExceededBy(c: Celsius) { c.Finite? && c.celsius >= ReleaseAbove() }

    /** The least duty this battery temperature justifies. A missing reading asks for none. */
    function FloorDuty(c: Celsius): Duty {
      if c.NonFinite? || c.celsius <= RampStart() then 0
      else
        var t := Clamp01((c.celsius - RampStart()) / (ReleaseAbove() - RampStart()));
        Max(Ceil(t * 255.0), STICTION_DUTY)
    }
  }

  function BatteryGuardFromCrit(crit: Option<Celsius>): BatteryGuard {
    match crit
    case Some(Finite(c)) => if 20.0 <= c <= 80.0 then BatteryGuard(c) else BatteryGuard(FALLBACK_CRIT_C)
    case _ => BatteryGuard(FALLBACK_CRIT_C)
  }

  datatype Thermal = Thermal(
    celsius: Option<Celsius>,
    ceiling: Ceiling,
    batteryCelsius: Option<Celsius>,
    battery: BatteryGuard)
  {
    /** The reading, if there is one and it is finite. */
    function Readable(): Option<real> {
      match celsius
      case Some(Finite(c)) => Some(c)
      case _ => None
    }

    function BatteryFloor(): Duty {
      if batteryCelsius.Some? then battery.FloorDuty(batteryCelsius.value) else 0
    }

    predicate BatteryExceeded() {
      batteryCelsius.Some? && battery.ExceededBy(batteryCelsius.value)
    }
  }

  /** Whatever the sensors say of their own critical points, the fan is firmware's at 100
      degrees and with the battery at 78, and a reported point that is believed is never
      reached while holding. */
  lemma ThresholdsAreCapped(crit: Option<Celsius>, batteryCrit: Option<Celsius>)
    ensures CeilingFromCrit(crit).celsius <= 100.0
    ensures CeilingFromCrit(crit).derived ==>
      crit.Some? && crit.value.Finite? && CeilingFromCrit(crit).celsius <= crit.value.celsius - 15.0
    ensures
      var guard := BatteryGuardFromCrit(batteryCrit);
      18.0 <= guard.ReleaseAbove() <= 78.0 && guard.RampStart() < guard.ReleaseAbove() < guard.crit
  {}

  /** The temperature from which firmware owns the fan: fifteen degrees under a critical point
      from 0 to 150, capped at 100, and 97 for want of one. */
  function CutOut(crit: Option<Celsius>): real {
    if crit.Some? && crit.value.Finite? && 0.0 <= crit.value.celsius <= 150.0
    then (if crit.value.celsius <= 115.0 then crit.value.celsius - 15.0 else 100.0)
    else 97.0
  }

  /** The battery's: two degrees under a critical point from 20 to 80, and 48 for want of one. */
  function BatteryCutOut(crit: Option<Celsius>): real {
    if crit.Some? && crit.value.Finite? && 20.0 <= crit.value.celsius <= 80.0
    then crit.value.celsius - 2.0
    else 48.0
  }

  lemma CutOutsAreExact(crit: Option<Celsius>, batteryCrit: Option<Celsius>, celsius: real)
    ensures CeilingFromCrit(crit).ExceededBy(Finite(celsius)) <==> celsius >= CutOut(crit)
    ensures BatteryGuardFromCrit(batteryCrit).ExceededBy(Finite(celsius)) <==> celsius >= BatteryCutOut(batteryCrit)
    ensures CeilingFromCrit(crit).ExceededBy(NonFinite) && !BatteryGuardFromCrit(batteryCrit).ExceededBy(NonFinite)
  {}

  /** Over the six degrees before its cut-out the guard asks for a share of full duty, rounded
      up, and never for one that does not turn the fan; before that it asks for nothing. */
  lemma BatteryRamp(crit: Option<Celsius>, celsius: real)
    ensures
      var guard := BatteryGuardFromCrit(crit);
      var above := celsius - (BatteryCutOut(crit) - 6.0);
      var duty := guard.FloorDuty(Finite(celsius));
      && guard.FloorDuty(NonFinite) == 0
      && (above <= 0.0 ==> duty == 0)
      && (above >= 6.0 ==> duty == 255)
      && (0.0 < above < 6.0 ==>
            && duty as real >= above * 42.5
            && (duty == STICTION_DUTY || duty as real < above * 42.5 + 1.0)
            && duty >= STICTION_DUTY)
  {
    var guard := BatteryGuardFromCrit(crit);
    var above := celsius - guard.RampStart();
    assert guard.RampStart() == BatteryCutOut(crit) - 6.0;
    hide BatteryGuard.FloorDuty, Clamp01, Ceil;
    GuardAsks(guard, celsius);
    if above > 0.0 { ShareOfFull(above); }
  }

  lemma GuardAsks(guard: BatteryGuard, celsius: real)
    ensures guard.FloorDuty(NonFinite) == 0
    ensures
      var above := celsius - guard.RampStart();
      guard.FloorDuty(Finite(celsius)) ==
        if above <= 0.0 then 0 else Max(Ceil(Clamp01(above / 6.0) * 255.0), STICTION_DUTY)
  {
    hide Ceil, Clamp01;
    var (above, span) := (celsius - guard.RampStart(), guard.ReleaseAbove() - guard.RampStart());
    assert span == 6.0;
    SameRatio(above, span, 6.0);
  }

  lemma SameRatio(a: real, b: real, c: real)
    requires b == c != 0.0
    ensures a / b == a / c
  {}

  /** A sixth of full duty for every degree, rounded up, and all of it from six. */
  lemma ShareOfFull(above: real)
    requires above > 0.0
    ensures
      var share := Ceil(Clamp01(above / 6.0) * 255.0);
      && (above < 6.0 ==> above * 42.5 <= share as real < above * 42.5 + 1.0)
      && (above >= 6.0 ==> share == 255)
  {
    var t := above / 6.0;
    assert t * 6.0 == above;
    MulOrder(1.0, t, 6.0);
    MulOrder(0.0, t, 6.0);
    assert t * 255.0 == above * 42.5;
  }

  /** The battery guard only tightens as the battery warms, and it is already asking for
      full duty at every temperature at which it would give the fan back. */
  lemma BatteryGuardEscalates(guard: BatteryGuard, a: real, b: real)
    requires a <= b
    ensures guard.FloorDuty(Finite(a)) <= guard.FloorDuty(Finite(b))
    ensures guard.ExceededBy(Finite(b)) ==> guard.FloorDuty(Finite(b)) == 255
    ensures guard.ExceededBy(Finite(a)) ==> guard.ExceededBy(Finite(b))
  {
    var (start, span) := (guard.RampStart(), guard.ReleaseAbove() - guard.RampStart());
    assert span == 6.0;
    assert (a - start) / span == (a - start) / 6.0 <= (b - start) / 6.0 == (b - start) / span;
    CeilMonotone(Clamp01((a - start) / span) * 255.0, Clamp01((b - start) / span) * 255.0);
  }

  lemma CeilMonotone(x: real, y: real)
    requires x <= y
    ensures Ceil(x) <= Ceil(y)
  {}
}
